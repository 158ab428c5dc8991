/** Word compression as it is done: a table of words, a buffer for the word being
    gathered, and a buffer for the output. */
module WordTable {
  import opened Bytes
  import opened WordComp

  class WordTable {
    const alnum: set<Byte>
    const words: array<Option<Text>>
    const wordsLen: array<nat>
    const word: array<Byte>
    var wordpos: nat
    const buf: array<Byte>
    var b: nat

    /** The table is in order, with each word's length and its zero beside it. */
    ghost predicate Valid()
      reads this, words, wordsLen, word, buf
    {
      && words.Length == MAXTABLE == wordsLen.Length && word.Length == MAXWORDS + 2 && buf.Length == BUFFER_LEN
      && word != buf && 0 !in alnum
      && DictOk(words[..])
      && (forall i :: 0 <= i < MAXTABLE && words[i].Some? ==> wordsLen[i] == |words[i].value| + 1)
    }

    ghost function Contents(): (d: Dict)
      requires Valid()
      reads this, words, wordsLen, word, buf
      ensures d == words[..] && DictOk(d)
    {
      words[..]
    }

    constructor (alphanumeric: set<Byte>)
      requires 0 !in alphanumeric
      ensures Valid() && alnum == alphanumeric && Contents() == seq(MAXTABLE, _ => None)
    {
      alnum := alphanumeric;
      words := new Option<Text>[MAXTABLE](_ => None);
      wordsLen := new nat[MAXTABLE](_ => 0);
      word := new Byte[MAXWORDS + 2](_ => 0);
      buf := new Byte[BUFFER_LEN](_ => 0);
      wordpos, b := 0, 0;
      new;
      assert words[..] == seq(MAXTABLE, _ => None);
    }

    method HashFn(w: Text) returns (h: nat)
      ensures h == Hash(w)
    {
      h := 0;
      var p := 0;
      while p < |w|
        invariant 0 <= p <= |w| && HashFrom(w, 0) == HashFrom(w[p..], h)
      {
        assert w[p..][1..] == w[p + 1..];
        h := (h * 32 + h + w[p]) % 0x1_0000_0000;
        p := p + 1;
      }
      h := h % MAXTABLE;
    }

    method PutByte(c: Byte)
      requires Valid() && b < buf.Length
      modifies buf, `b
      ensures Valid() && b == old(b) + 1 && buf[..b] == old(buf[..b]) + [c]
    {
      buf[b] := c;
      b := b + 1;
    }

    method PutRaw(w: Text)
      requires Valid() && b + |w| <= buf.Length
      modifies buf, `b
      ensures Valid() && b == old(b) + |w| && buf[..b] == old(buf[..b]) + w
    {
      var p := 0;
      while p < |w|
        invariant 0 <= p <= |w| && Valid() && b == old(b) + p && buf[..b] == old(buf[..b]) + w[..p]
      {
        PutByte(w[p]);
        assert w[..p + 1] == w[..p] + [w[p]];
        p := p + 1;
      }
    }

    method PutToken(i: nat)
      requires Valid() && i < MAXTABLE && b + 3 <= buf.Length
      modifies buf, `b
      ensures Valid() && b == old(b) + 3 && buf[..b] == old(buf[..b]) + Token(i)
    {
      PutByte(MARKER);
      PutByte(i / 256 + TABLE_FLAG);
      PutByte(i % 256);
    }

    /** Go along the table from where `w` hashes to, to where it is or where the
        search ends. */
    method Search(w: Text) returns (i: nat, j: nat, found: bool)
      requires Valid()
      ensures found ==> FindIt(Contents(), w) == Found(i)
      ensures !found && i < MAXTABLE && j < COLLISION_LIMIT ==> i % 256 != 0 && FindIt(Contents(), w) == Free(i)
      ensures !found && (i >= MAXTABLE || j >= COLLISION_LIMIT) ==> FindIt(Contents(), w) == Full
    {
      i := HashFn(w);
      j := 0;
      while i < MAXTABLE && (words[i].Some? || i % 256 == 0) && j < COLLISION_LIMIT
        invariant Find(words[..], w, Hash(w), 0) == Find(words[..], w, i, j)
        decreases COLLISION_LIMIT - j
      {
        if words[i] == Some(w) {
          return i, j, true;
        }
        i, j := i + 1, j + 1;
      }
      return i, j, false;
    }

    /** The word that has been gathered. */
    ghost function Gathered(): Text
      requires wordpos <= word.Length
      reads this, word
    {
      word[..wordpos]
    }

    method OutputPreviousWord()
      requires Valid() && 0 < wordpos <= MAXWORDS + 1 && NulFree(Gathered()) && b + wordpos <= buf.Length
      modifies words, wordsLen, buf, `b
      ensures Valid()
      ensures var r := PutWord(old(Contents()), old(Gathered()));
              Contents() == r.dict && b == old(b) + |r.out| && buf[..b] == old(buf[..b]) + r.out
    {
      var w := word[..wordpos];
      ghost var d := Contents();
      PutWordOk(d, w);
      if |w| <= 3 {
        PutRaw(w);
        return;
      }
      var i, j, found := Search(w);
      if found {
        PutToken(i);
        return;
      }
      if i % 256 == 0 {
        i, j := i + 1, j + 1;
      }
      if i >= MAXTABLE || j >= COLLISION_LIMIT {
        PutRaw(w);
        return;
      }
      words[i] := Some(w);
      wordsLen[i] := wordpos + 1;
      assert words[..] == d[i := Some(w)];
      PutToken(i);
    }

    /** One character: a letter is gathered, and anything else ends the word that
        is being gathered. */
    method GatherByte(s: Text, p: nat)
      requires Valid() && p < |s| < BUFFER_LEN && NulFree(s) && wordpos <= MAXWORDS && NulFree(Gathered()) && b + wordpos <= p
      modifies words, wordsLen, word, buf, `b, `wordpos
      ensures Valid() && wordpos <= MAXWORDS && NulFree(Gathered()) && b + wordpos <= p + 1
      ensures var all := Compress(alnum, old(Contents()), s[p..], old(Gathered()));
              var rest := Compress(alnum, Contents(), s[p + 1..], Gathered());
              all.dict == rest.dict && old(buf[..b]) + all.out == buf[..b] + rest.out
    {
      ghost var d, acc, out, text := Contents(), Gathered(), buf[..b], s[p..];
      assert text[0] == s[p] && text[1..] == s[p + 1..];
      if s[p] !in alnum || wordpos >= MAXWORDS {
        if wordpos > 0 {
          word[wordpos] := s[p];
          wordpos := wordpos + 1;
          assert Gathered() == acc + [s[p]] && s[p] in s;
          PutWordOk(d, acc + [s[p]]);
          OutputPreviousWord();
          wordpos := 0;
        } else {
          PutByte(s[p]);
        }
        assert Gathered() == [];
        Regroup(out, buf[..b][|out|..], Compress(alnum, Contents(), s[p + 1..], []).out);
      } else {
        word[wordpos] := s[p];
        wordpos := wordpos + 1;
        assert Gathered() == acc + [s[p]] && s[p] in s;
      }
    }

    lemma Regroup(x: Text, y: Text, z: Text)
      ensures x + y + z == x + (y + z)
    {
    }

    /** Compress `s` into the output buffer. */
    method WordTextCompress(s: Text) returns (r: Text)
      requires Valid() && NulFree(s) && |s| < BUFFER_LEN
      modifies words, wordsLen, word, buf, `b, `wordpos
      ensures Valid()
      ensures Packed(Contents(), r) == Compress(alnum, old(Contents()), s, [])
    {
      ghost var d := Contents();
      ghost var all := Compress(alnum, d, s, []);
      b, wordpos := 0, 0;
      var p := 0;
      while p < |s|
        invariant 0 <= p <= |s| && Valid() && wordpos <= MAXWORDS && NulFree(Gathered()) && b + wordpos <= p
        invariant var rest := Compress(alnum, Contents(), s[p..], Gathered());
                  all == Packed(rest.dict, buf[..b] + rest.out)
      {
        GatherByte(s, p);
        p := p + 1;
      }
      assert s[p..] == [];
      if wordpos > 0 {
        PutWordOk(Contents(), Gathered());
        OutputPreviousWord();
      }
      buf[b] := 0;
      return buf[..b];
    }

    /** What the decompressor does at `p`. */
    lemma UncompressStep(d: Dict, s: Text, p: nat)
      requires p < |s|
      ensures var all := Uncompress(d, s[p..]);
              if s[p] != MARKER then
                all == Unpacked([s[p]] + Uncompress(d, s[p + 1..]).out, Uncompress(d, s[p + 1..]).ok)
              else if p + 2 >= |s| || d[Slot(s[p + 1], s[p + 2])].None? then all == Unpacked([], false)
              else
                all == Unpacked(d[Slot(s[p + 1], s[p + 2])].value + Uncompress(d, s[p + 3..]).out, Uncompress(d, s[p + 3..]).ok)
    {
      var rest := s[p..];
      assert rest[0] == s[p] && rest[1..] == s[p + 1..];
      if p + 2 < |s| { assert rest[1] == s[p + 1] && rest[2] == s[p + 2] && rest[3..] == s[p + 3..]; }
    }

    /** Put the word in slot `i` into the output buffer. */
    method PutWordAt(i: nat)
      requires Valid() && i < MAXTABLE && words[i].Some? && b + |words[i].value| <= buf.Length
      modifies buf, `b
      ensures Valid() && b == old(b) + |words[i].value| && buf[..b] == old(buf[..b]) + words[i].value
    {
      var w := words[i].value;
      assert w[..wordsLen[i] - 1] == w;
      PutRaw(w[..wordsLen[i] - 1]);
    }

    /** Decompress `s` into the output buffer; `ok` is false where the server
        panics. */
    method WordTextUncompress(s: Text) returns (r: Text, ok: bool)
      requires Valid() && |Uncompress(Contents(), s).out| < BUFFER_LEN
      modifies buf, `b
      ensures Valid() && Contents() == old(Contents())
      ensures Unpacked(r, ok) == Uncompress(Contents(), s)
    {
      ghost var d := Contents();
      ghost var all := Uncompress(d, s);
      b := 0;
      var p := 0;
      assert s[0..] == s;
      while p < |s|
        invariant 0 <= p <= |s| && Valid() && Contents() == d && b < BUFFER_LEN
        invariant all == Unpacked(buf[..b] + Uncompress(d, s[p..]).out, Uncompress(d, s[p..]).ok)
      {
        ghost var out := buf[..b];
        UncompressStep(d, s, p);
        hide Uncompress;
        if s[p] == MARKER {
          if p + 2 >= |s| {
            return buf[..b], false;
          }
          var i := Slot(s[p + 1], s[p + 2]);
          if words[i].None? {
            return buf[..b], false;
          }
          Regroup(out, words[i].value, Uncompress(d, s[p + 3..]).out);
          assert b + |words[i].value| < BUFFER_LEN;
          PutWordAt(i);
          p := p + 3;
        } else {
          Regroup(out, [s[p]], Uncompress(d, s[p + 1..]).out);
          PutByte(s[p]);
          p := p + 1;
        }
      }
      buf[b] := 0;
      return buf[..b], true;
    }
  }
}
