/** Word compression: one table of words, shared by all strings ever compressed,
    that only grows. */
module WordComp {
  import opened Bytes

  const MAXTABLE := 32768
  const MAXWORDS := 100
  const COLLISION_LIMIT := 20
  const MARKER: Byte := 6
  const TABLE_FLAG := 128

  // ----- The table

  type Dict = d: seq<Option<Text>> | |d| == MAXTABLE witness seq(MAXTABLE, _ => None)

  /** Unsigned arithmetic of 32 bits. */
  function HashFrom(w: Text, h: nat): nat {
    if w == [] then h else HashFrom(w[1..], (h * 32 + h + w[0]) % 0x1_0000_0000)
  }

  function Hash(w: Text): (h: nat)
    ensures h < MAXTABLE
  {
    HashFrom(w, 0) % MAXTABLE
  }

  datatype Place = Found(i: nat) | Free(i: nat) | Full

  /** A slot that the search goes past: taken, or one whose index has a zero for
      its low byte. */
  predicate Busy(d: Dict, i: nat) {
    i < MAXTABLE && (d[i].Some? || i % 256 == 0)
  }

  /** Where `w` is, or can be put, from slot `i` on and after `j` collisions. */
  function Find(d: Dict, w: Text, i: nat, j: nat): Place
    decreases COLLISION_LIMIT - j
  {
    if i >= MAXTABLE || j >= COLLISION_LIMIT then Full
    else if d[i] == Some(w) then Found(i)
    else if Busy(d, i) then Find(d, w, i + 1, j + 1)
    else Free(i)
  }

  /** The three bytes that stand for the word in slot `i`. */
  function Token(i: nat): seq<Byte>
    requires i < MAXTABLE
  {
    [MARKER, i / 256 + TABLE_FLAG, i % 256]
  }

  datatype Packed = Packed(dict: Dict, out: seq<Byte>)

  /** One word: short ones, and those there is no room for, go out as they are. */
  function PutWord(d: Dict, w: Text): Packed {
    if |w| <= 3 then Packed(d, w)
    else match FindIt(d, w)
      case Found(i) => Packed(d, Token(i))
      case Free(i) => Packed(d[i := Some(w)], Token(i))
      case Full => Packed(d, w)
  }

  function FindIt(d: Dict, w: Text): (p: Place)
    ensures !p.Full? ==> p.i < MAXTABLE
  {
    FindBounds(d, w, Hash(w), 0);
    Find(d, w, Hash(w), 0)
  }

  /** Compress `s`, with the letters of `acc` already gathered for a word. */
  function Compress(alnum: set<Byte>, d: Dict, s: Text, acc: Text): Packed
    decreases |s|
  {
    if s == [] then
      if acc == [] then Packed(d, []) else PutWord(d, acc)
    else if s[0] in alnum && |acc| < MAXWORDS then Compress(alnum, d, s[1..], acc + [s[0]])
    else
      var first := if acc == [] then Packed(d, [s[0]]) else PutWord(d, acc + [s[0]]);
      var rest := Compress(alnum, first.dict, s[1..], []);
      Packed(rest.dict, first.out + rest.out)
  }

  /** What came out, and whether the end was reached without a word missing. */
  datatype Unpacked = Unpacked(out: Text, ok: bool)

  function Uncompress(d: Dict, b: Text): Unpacked
    decreases |b|
  {
    if b == [] then Unpacked([], true)
    else if b[0] != MARKER then Unpacked([b[0]] + Uncompress(d, b[1..]).out, Uncompress(d, b[1..]).ok)
    else if |b| < 3 || d[Slot(b[1], b[2])].None? then Unpacked([], false)
    else Unpacked(d[Slot(b[1], b[2])].value + Uncompress(d, b[3..]).out, Uncompress(d, b[3..]).ok)
  }

  function Slot(hi: Byte, lo: Byte): (i: nat)
    ensures i < MAXTABLE
  {
    hi % 128 * 256 + lo
  }

  // ----- The search finds what is there

  lemma {:induction false} FindBounds(d: Dict, w: Text, i: nat, j: nat)
    ensures var p := Find(d, w, i, j);
            && (p.Found? ==> i <= p.i < MAXTABLE && p.i + j < i + COLLISION_LIMIT && d[p.i] == Some(w))
            && (p.Free? ==> i <= p.i < MAXTABLE && p.i + j < i + COLLISION_LIMIT && d[p.i] == None && p.i % 256 != 0)
            && (!p.Full? ==> forall k :: i <= k < p.i ==> Busy(d, k) && d[k] != Some(w))
    decreases COLLISION_LIMIT - j
  {
    if i < MAXTABLE && j < COLLISION_LIMIT && d[i] != Some(w) && Busy(d, i) { FindBounds(d, w, i + 1, j + 1); }
  }

  /** The word in slot `i` is where a search for it will look, and nowhere before. */
  predicate Reached(d: Dict, i: nat)
    requires i < MAXTABLE && d[i].Some?
  {
    var w := d[i].value;
    && i % 256 != 0 && 4 <= |w| <= MAXWORDS + 1 && NulFree(w)
    && Hash(w) <= i < Hash(w) + COLLISION_LIMIT
    && forall k :: Hash(w) <= k < i ==> Busy(d, k) && d[k] != Some(w)
  }

  ghost predicate DictOk(d: Dict) {
    forall i :: 0 <= i < MAXTABLE && d[i].Some? ==> Reached(d, i)
  }

  /** Searching for a word finds its slot if and only if it is there. */
  lemma FindStored(d: Dict, w: Text, i: nat)
    requires DictOk(d) && i < MAXTABLE
    ensures FindIt(d, w) == Found(i) <==> d[i] == Some(w)
  {
    FindBounds(d, w, Hash(w), 0);
    if d[i] == Some(w) {
      assert Reached(d, i);
      FindOn(d, w, Hash(w), 0, i);
    }
  }

  lemma {:induction false} FindOn(d: Dict, w: Text, h: nat, j: nat, i: nat)
    requires h <= i < MAXTABLE && i - h + j < COLLISION_LIMIT && d[i] == Some(w)
    requires forall k :: h <= k < i ==> Busy(d, k) && d[k] != Some(w)
    ensures Find(d, w, h, j) == Found(i)
    decreases i - h
  {
    if h < i { FindOn(d, w, h + 1, j + 1, i); }
  }

  /** No word is in two slots. */
  lemma WordsDistinct(d: Dict, i: nat, k: nat)
    requires DictOk(d) && i < MAXTABLE && k < MAXTABLE && d[i].Some? && d[i] == d[k]
    ensures i == k
  {
    FindStored(d, d[i].value, i);
    FindStored(d, d[i].value, k);
  }

  // ----- The table only grows

  ghost predicate Extends(d: Dict, e: Dict) {
    forall i :: 0 <= i < MAXTABLE && d[i].Some? ==> e[i] == d[i]
  }

  lemma PutWordOk(d: Dict, w: Text)
    requires DictOk(d) && NulFree(w) && |w| <= MAXWORDS + 1
    ensures DictOk(PutWord(d, w).dict) && Extends(d, PutWord(d, w).dict)
    ensures NulFree(PutWord(d, w).out) && |PutWord(d, w).out| <= |w|
  {
    FindBounds(d, w, Hash(w), 0);
    if |w| > 3 {
      match FindIt(d, w) {
        case Found(i) => assert Reached(d, i);
        case Free(i) => FilledOk(d, w, i);
        case Full =>
      }
    }
  }

  lemma FilledOk(d: Dict, w: Text, i: nat)
    requires DictOk(d) && NulFree(w) && 4 <= |w| <= MAXWORDS + 1 && FindIt(d, w) == Free(i)
    ensures DictOk(d[i := Some(w)])
  {
    FindBounds(d, w, Hash(w), 0);
    var e := d[i := Some(w)];
    forall k | 0 <= k < MAXTABLE && e[k].Some? ensures Reached(e, k) {
      if k != i {
        assert Reached(d, k);
        FindStored(d, w, k);
        assert e[k] == d[k] && d[k] != Some(w);
      }
    }
  }

  lemma {:induction false} CompressOk(alnum: set<Byte>, d: Dict, s: Text, acc: Text)
    requires DictOk(d) && NulFree(s) && NulFree(acc) && |acc| <= MAXWORDS
    ensures var r := Compress(alnum, d, s, acc);
            DictOk(r.dict) && Extends(d, r.dict) && NulFree(r.out) && |r.out| <= |acc| + |s|
    decreases |s|
  {
    if s == [] {
      PutWordOk(d, acc);
    } else if s[0] in alnum && |acc| < MAXWORDS {
      CompressOk(alnum, d, s[1..], acc + [s[0]]);
    } else {
      var first := if acc == [] then Packed(d, [s[0]]) else PutWord(d, acc + [s[0]]);
      PutWordOk(d, acc + [s[0]]);
      hide PutWord, DictOk;
      CompressOk(alnum, first.dict, s[1..], []);
    }
  }

  // ----- What a word comes to

  /** Among the slots where a search for `w` may look is one that has it, or one
      that it could be put into. */
  ghost predicate HasPlace(d: Dict, w: Text) {
    exists i :: PlaceAt(d, w, i)
  }

  predicate PlaceAt(d: Dict, w: Text, i: int) {
    Hash(w) <= i < Hash(w) + COLLISION_LIMIT && i < MAXTABLE && (d[i] == Some(w) || !Busy(d, i))
  }

  /** A word that has a place goes out as three bytes that stand for it, and any
      other as it is. */
  lemma WordLength(d: Dict, w: Text)
    ensures var p := PutWord(d, w);
            if |w| > 3 && HasPlace(d, w) then |p.out| == 3 && exists i :: 0 <= i < MAXTABLE && p.out == Token(i) && p.dict[i] == Some(w)
            else p == Packed(d, w)
  {
    PlaceFound(d, w);
    FindBounds(d, w, Hash(w), 0);
    hide HasPlace;
  }

  lemma PlaceFound(d: Dict, w: Text)
    ensures HasPlace(d, w) <==> !FindIt(d, w).Full?
  {
    FindBounds(d, w, Hash(w), 0);
    if HasPlace(d, w) {
      var i :| PlaceAt(d, w, i);
      FindsPlace(d, w, Hash(w), 0, i);
    }
    if !FindIt(d, w).Full? { assert PlaceAt(d, w, FindIt(d, w).i); }
  }

  lemma {:induction false} FindsPlace(d: Dict, w: Text, h: nat, j: nat, i: nat)
    requires h <= i < MAXTABLE && i - h + j < COLLISION_LIMIT && (d[i] == Some(w) || !Busy(d, i))
    ensures !Find(d, w, h, j).Full?
    decreases i - h
  {
    if h < i { FindsPlace(d, w, h + 1, j + 1, i); }
  }

  /** In an empty table every word has a place. */
  lemma EmptyHasPlace(d: Dict, w: Text)
    requires forall i :: 0 <= i < MAXTABLE ==> d[i] == None
    ensures HasPlace(d, w)
  {
    assert PlaceAt(d, w, if Hash(w) % 256 == 0 then Hash(w) + 1 else Hash(w));
  }

  /** A word that there was no place for has none later either. */
  lemma {:induction false} FullStays(d: Dict, e: Dict, w: Text, i: nat, j: nat)
    requires Find(d, w, i, j).Full? && Extends(d, e) && DictOk(e)
    ensures Find(e, w, i, j).Full?
    decreases COLLISION_LIMIT - j
  {
    if i < MAXTABLE && j < COLLISION_LIMIT {
      assert e[i].Some? ==> Reached(e, i);
      FullStays(d, e, w, i + 1, j + 1);
    }
  }

  /** A word that has been put once goes out the same way again, and puts in
      nothing more. */
  lemma PutAgain(d: Dict, w: Text, e: Dict)
    requires DictOk(e) && Extends(d, e) && Extends(PutWord(d, w).dict, e)
    ensures PutWord(e, w) == Packed(e, PutWord(d, w).out)
  {
    FindBounds(d, w, Hash(w), 0);
    if FindIt(d, w).Full? { FullStays(d, e, w, Hash(w), 0); } else { FindStored(e, w, FindIt(d, w).i); }
  }

  /** So with any later table an equal text is compressed to the same bytes, and
      the table stays as it is. */
  lemma {:induction false} CompressAgain(alnum: set<Byte>, d: Dict, s: Text, acc: Text, e: Dict)
    requires DictOk(d) && DictOk(e) && NulFree(s) && NulFree(acc) && |acc| <= MAXWORDS
    requires Extends(Compress(alnum, d, s, acc).dict, e)
    ensures Compress(alnum, e, s, acc) == Packed(e, Compress(alnum, d, s, acc).out)
    decreases |s|
  {
    CompressOk(alnum, d, s, acc);
    if s == [] {
      if acc != [] { PutAgain(d, acc, e); }
    } else if s[0] in alnum && |acc| < MAXWORDS {
      CompressAgain(alnum, d, s[1..], acc + [s[0]], e);
    } else {
      var w := acc + [s[0]];
      var first := if acc == [] then Packed(d, [s[0]]) else PutWord(d, w);
      PutWordOk(d, w);
      CompressOk(alnum, first.dict, s[1..], []);
      if acc != [] { PutAgain(d, w, e); }
      CompressAgain(alnum, first.dict, s[1..], [], e);
    }
  }

  // ----- Decompressing

  lemma {:induction false} RawBytes(d: Dict, w: Text, rest: Text)
    requires MARKER !in w
    ensures Uncompress(d, w + rest) == Unpacked(w + Uncompress(d, rest).out, Uncompress(d, rest).ok)
  {
    if w == [] {
      assert w + rest == rest;
    } else {
      assert (w + rest)[1..] == w[1..] + rest;
      RawBytes(d, w[1..], rest);
    }
  }

  lemma TokenBytes(d: Dict, i: nat, rest: Text)
    requires i < MAXTABLE && d[i].Some?
    ensures Uncompress(d, Token(i) + rest) == Unpacked(d[i].value + Uncompress(d, rest).out, Uncompress(d, rest).ok)
  {
    var b := Token(i) + rest;
    assert b[0] == MARKER && b[1] == i / 256 + TABLE_FLAG && b[2] == i % 256 && b[3..] == rest;
    assert Slot(b[1], b[2]) == i;
  }

  /** A word that was put comes back, with any later table. */
  lemma WordBytes(d: Dict, w: Text, e: Dict, rest: Text)
    requires DictOk(d) && NulFree(w) && MARKER !in w && |w| <= MAXWORDS + 1 && Extends(PutWord(d, w).dict, e)
    ensures Uncompress(e, PutWord(d, w).out + rest) == Unpacked(w + Uncompress(e, rest).out, Uncompress(e, rest).ok)
  {
    FindBounds(d, w, Hash(w), 0);
    if |w| <= 3 || FindIt(d, w).Full? {
      RawBytes(e, w, rest);
    } else {
      TokenBytes(e, FindIt(d, w).i, rest);
    }
  }

  /** A text that was compressed comes back, with any later table. */
  lemma {:induction false} CompressedBack(alnum: set<Byte>, d: Dict, s: Text, acc: Text, e: Dict)
    requires DictOk(d) && NulFree(s) && NulFree(acc) && MARKER !in s && MARKER !in acc && |acc| <= MAXWORDS
    requires Extends(Compress(alnum, d, s, acc).dict, e)
    ensures Uncompress(e, Compress(alnum, d, s, acc).out) == Unpacked(acc + s, true)
    decreases |s|
  {
    if s == [] {
      if acc != [] {
        WordBytes(d, acc, e, []);
        assert PutWord(d, acc).out + [] == PutWord(d, acc).out;
      }
      assert acc + [] == acc;
    } else if s[0] in alnum && |acc| < MAXWORDS {
      CompressedBack(alnum, d, s[1..], acc + [s[0]], e);
      assert acc + [s[0]] + s[1..] == acc + s;
    } else {
      var w := acc + [s[0]];
      var first := if acc == [] then Packed(d, [s[0]]) else PutWord(d, w);
      PutWordOk(d, w);
      CompressOk(alnum, first.dict, s[1..], []);
      var rest := Compress(alnum, first.dict, s[1..], []);
      CompressedBack(alnum, first.dict, s[1..], [], e);
      assert [] + s[1..] == s[1..] && w + s[1..] == acc + s;
      if acc == [] { RawBytes(e, w, rest.out); } else { WordBytes(d, w, e, rest.out); }
    }
  }

  // ----- Texts that hold the marker

  /** Every stored word starts with a letter or digit. */
  ghost predicate WordsStart(alnum: set<Byte>, d: Dict) {
    forall i :: 0 <= i < MAXTABLE && d[i].Some? ==> d[i].value != [] && d[i].value[0] in alnum
  }

  /** A word that is found in the table or put into it. */
  predicate Held(d: Dict, w: Text) {
    |w| > 3 && !FindIt(d, w).Full?
  }

  /** Each marker in the text closes a word that is found in the table or put
      into it, so that none goes out as it is. */
  predicate MarkersHeld(alnum: set<Byte>, d: Dict, s: Text, acc: Text)
    decreases |s|
  {
    if s == [] then true
    else if s[0] in alnum && |acc| < MAXWORDS then MarkersHeld(alnum, d, s[1..], acc + [s[0]])
    else
      var w := acc + [s[0]];
      && (s[0] == MARKER ==> acc != [] && Held(d, w))
      && MarkersHeld(alnum, if acc == [] then d else PutWord(d, w).dict, s[1..], [])
  }

  /** A text without the marker is a simple case of that. */
  lemma {:induction false} NoMarkersHeld(alnum: set<Byte>, d: Dict, s: Text, acc: Text)
    requires MARKER !in s
    ensures MarkersHeld(alnum, d, s, acc)
    decreases |s|
  {
    if s != [] {
      NoMarkersHeld(alnum, d, s[1..], acc + [s[0]]);
      NoMarkersHeld(alnum, if acc == [] then d else PutWord(d, acc + [s[0]]).dict, s[1..], []);
    }
  }

  lemma PutWordStarts(alnum: set<Byte>, d: Dict, w: Text)
    requires WordsStart(alnum, d) && w != [] && (|w| > 3 ==> w[0] in alnum)
    ensures WordsStart(alnum, PutWord(d, w).dict)
  {
  }

  lemma {:induction false} CompressStarts(alnum: set<Byte>, d: Dict, s: Text, acc: Text)
    requires WordsStart(alnum, d) && forall c :: c in acc ==> c in alnum
    ensures WordsStart(alnum, Compress(alnum, d, s, acc).dict)
    decreases |s|
  {
    if s == [] {
      if acc != [] { PutWordStarts(alnum, d, acc); }
    } else if s[0] in alnum && |acc| < MAXWORDS {
      CompressStarts(alnum, d, s[1..], acc + [s[0]]);
    } else {
      if acc != [] { PutWordStarts(alnum, d, acc + [s[0]]); }
      CompressStarts(alnum, if acc == [] then d else PutWord(d, acc + [s[0]]).dict, s[1..], []);
    }
  }

  /** A marker that goes out as it is does not come back: either the two bytes
      behind it name no word, or a letter or digit appears in its place. */
  lemma RawMarker(alnum: set<Byte>, e: Dict, acc: Text, rest: Text, more: Text)
    requires WordsStart(alnum, e) && MARKER !in alnum && MARKER !in acc
    ensures Uncompress(e, (acc + [MARKER]) + rest) != Unpacked(acc + [MARKER] + more, true)
  {
    assert (acc + [MARKER]) + rest == acc + ([MARKER] + rest);
    RawBytes(e, acc, [MARKER] + rest);
    LetterAfterMarker(alnum, e, rest);
    var u := Uncompress(e, [MARKER] + rest);
    assert (acc + [MARKER] + more)[|acc|] == MARKER;
    assert u.ok ==> (acc + u.out)[|acc|] == u.out[0];
  }

  lemma LetterAfterMarker(alnum: set<Byte>, e: Dict, rest: Text)
    requires WordsStart(alnum, e)
    ensures var u := Uncompress(e, [MARKER] + rest); u.ok ==> u.out != [] && u.out[0] in alnum
  {
    var b := [MARKER] + rest;
    if Uncompress(e, b).ok {
      var w := e[Slot(b[1], b[2])].value;
      assert Uncompress(e, b).out == w + Uncompress(e, b[3..]).out;
    }
  }

  /** One word and the rest of the text: if the word comes back, the whole does
      just when the rest does. */
  lemma AfterWord(u: Unpacked, w: Text, rest: Text)
    ensures Unpacked(w + u.out, u.ok) == Unpacked(w + rest, true) <==> u == Unpacked(rest, true)
  {
    if w + u.out == w + rest {
      assert (w + u.out)[|w|..] == u.out && (w + rest)[|w|..] == rest;
    }
  }

  /** The same for a word that is in the table, whatever is in it. */
  lemma TableWordBytes(d: Dict, w: Text, e: Dict, rest: Text)
    requires Held(d, w) && Extends(PutWord(d, w).dict, e)
    ensures Uncompress(e, PutWord(d, w).out + rest) == Unpacked(w + Uncompress(e, rest).out, Uncompress(e, rest).ok)
  {
    FindBounds(d, w, Hash(w), 0);
    TokenBytes(e, FindIt(d, w).i, rest);
  }

  /** A text comes back, with any later table, if and only if each marker in it
      closes a word that went into the table. */
  lemma {:induction false} BackExactly(alnum: set<Byte>, d: Dict, s: Text, acc: Text, e: Dict)
    requires DictOk(d) && NulFree(s) && NulFree(acc) && MARKER !in alnum && |acc| <= MAXWORDS
    requires forall c :: c in acc ==> c in alnum
    requires Extends(Compress(alnum, d, s, acc).dict, e) && WordsStart(alnum, e)
    ensures Uncompress(e, Compress(alnum, d, s, acc).out) == Unpacked(acc + s, true) <==> MarkersHeld(alnum, d, s, acc)
    decreases |s|
  {
    if s == [] {
      CompressedBack(alnum, d, s, acc, e);
    } else if s[0] in alnum && |acc| < MAXWORDS {
      BackExactly(alnum, d, s[1..], acc + [s[0]], e);
      assert acc + [s[0]] + s[1..] == acc + s;
    } else {
      BackFromWord(alnum, d, s, acc, e);
    }
  }

  /** A text that is lost, whatever is in the table: the marker by itself. */
  lemma MarkerLost(alnum: set<Byte>, d: Dict)
    requires MARKER !in alnum
    ensures !MarkersHeld(alnum, d, [MARKER], []) && !Uncompress(d, Compress(alnum, d, [MARKER], []).out).ok
  {
    assert Compress(alnum, d, [MARKER][1..], []).out == [];
    assert [MARKER] + [] == [MARKER];
  }

  lemma {:induction false} BackFromWord(alnum: set<Byte>, d: Dict, s: Text, acc: Text, e: Dict)
    requires DictOk(d) && NulFree(s) && NulFree(acc) && MARKER !in alnum && |acc| <= MAXWORDS
    requires s != [] && !(s[0] in alnum && |acc| < MAXWORDS) && forall c :: c in acc ==> c in alnum
    requires Extends(Compress(alnum, d, s, acc).dict, e) && WordsStart(alnum, e)
    ensures Uncompress(e, Compress(alnum, d, s, acc).out) == Unpacked(acc + s, true) <==> MarkersHeld(alnum, d, s, acc)
    decreases |s|, 0
  {
    hide DictOk, FindIt, Uncompress, WordsStart, Compress, MarkersHeld, PutWord;
    var w, first := acc + [s[0]], FirstOut(d, s, acc);
    WordStep(alnum, d, s, acc);
    PutWordOk(d, w);
    CompressOk(alnum, first.dict, s[1..], []);
    var rest := Compress(alnum, first.dict, s[1..], []);
    BackExactly(alnum, first.dict, s[1..], [], e);
    assert [] + s[1..] == s[1..] && w + s[1..] == acc + s;
    if Held(d, w) && acc != [] {
      ExtendsOn(first.dict, rest.dict, e);
      TableWordBytes(d, w, e, rest.out);
      AfterWord(Uncompress(e, rest.out), w, s[1..]);
    } else {
      RawOut(d, w);
      assert acc == [] ==> w == [s[0]];
      if s[0] == MARKER {
        assert first.out == acc + [MARKER];
        RawMarker(alnum, e, acc, rest.out, s[1..]);
      } else {
        RawBytes(e, w, rest.out);
        AfterWord(Uncompress(e, rest.out), w, s[1..]);
      }
    }
  }

  /** What ends at the first character of `s`. */
  function FirstOut(d: Dict, s: Text, acc: Text): Packed
    requires s != []
  {
    if acc == [] then Packed(d, [s[0]]) else PutWord(d, acc + [s[0]])
  }

  lemma WordStep(alnum: set<Byte>, d: Dict, s: Text, acc: Text)
    requires s != [] && !(s[0] in alnum && |acc| < MAXWORDS)
    ensures var first := FirstOut(d, s, acc);
            var rest := Compress(alnum, first.dict, s[1..], []);
            && Compress(alnum, d, s, acc) == Packed(rest.dict, first.out + rest.out)
            && (MarkersHeld(alnum, d, s, acc) <==>
                  (s[0] == MARKER ==> acc != [] && Held(d, acc + [s[0]])) && MarkersHeld(alnum, first.dict, s[1..], []))
  {
    hide PutWord, FindIt;
  }

  lemma ExtendsOn(a: Dict, b: Dict, c: Dict)
    requires Extends(a, b) && Extends(b, c)
    ensures Extends(a, c)
  {
  }

  lemma RawOut(d: Dict, w: Text)
    ensures !Held(d, w) ==> PutWord(d, w).out == w
  {
  }

  // ----- Whole runs

  /** Compress one text after another, starting with the table `d`. */
  function Run(alnum: set<Byte>, d: Dict, texts: seq<Text>): (r: (Dict, seq<Text>))
    ensures |r.1| == |texts|
    decreases |texts|
  {
    if texts == [] then (d, []) else
      var first := Compress(alnum, d, texts[0], []);
      var rest := Run(alnum, first.dict, texts[1..]);
      (rest.0, [first.out] + rest.1)
  }

  /** Text `k` comes back from `out`, with the table that the run ends with, if
      and only if each marker in it closes a word that went into the table; so
      it does when it has none.  The string has no zero in it and is no longer
      than the text. */
  ghost predicate ComesBack(alnum: set<Byte>, before: Dict, e: Dict, text: Text, out: Text) {
    && (Uncompress(e, out) == Unpacked(text, true) <==> MarkersHeld(alnum, before, text, []))
    && (MARKER !in text ==> Uncompress(e, out) == Unpacked(text, true))
    && NulFree(out) && |out| <= |text|
  }

  /** Over any run, the table stays in order and only grows, and every text
      comes back from its compressed string when the run is over, however many
      texts came before and after, exactly when its markers went into the
      table. */
  lemma {:induction false} RunBack(alnum: set<Byte>, d: Dict, texts: seq<Text>)
    requires DictOk(d) && WordsStart(alnum, d) && MARKER !in alnum && forall k :: 0 <= k < |texts| ==> NulFree(texts[k])
    ensures var (e, outs) := Run(alnum, d, texts);
            && DictOk(e) && WordsStart(alnum, e) && Extends(d, e)
            && forall k :: 0 <= k < |texts| ==> ComesBack(alnum, Run(alnum, d, texts[..k]).0, e, texts[k], outs[k])
    decreases |texts|
  {
    if texts != [] {
      var first := Compress(alnum, d, texts[0], []);
      CompressOk(alnum, d, texts[0], []);
      CompressStarts(alnum, d, texts[0], []);
      hide DictOk, Compress, ComesBack, NulFree, WordsStart;
      RunBack(alnum, first.dict, texts[1..]);
      var (e, outs) := Run(alnum, first.dict, texts[1..]);
      FirstBack(alnum, d, texts[0], e);
      var all := Run(alnum, d, texts);
      assert all == (e, [first.out] + outs) && Run(alnum, d, texts[..0]).0 == d;
      forall k | 0 < k < |texts| ensures Run(alnum, d, texts[..k]).0 == Run(alnum, first.dict, texts[1..][..k - 1]).0 {
        assert texts[..k][1..] == texts[1..][..k - 1];
      }
      hide Extends, Run;
      forall k | 0 <= k < |texts| ensures ComesBack(alnum, Run(alnum, d, texts[..k]).0, e, texts[k], all.1[k]) {
        if k > 0 { assert texts[1..][k - 1] == texts[k] && all.1[k] == outs[k - 1]; }
      }
    }
  }

  lemma FirstBack(alnum: set<Byte>, d: Dict, text: Text, e: Dict)
    requires DictOk(d) && MARKER !in alnum && NulFree(text) && WordsStart(alnum, e)
    requires Extends(Compress(alnum, d, text, []).dict, e)
    ensures ComesBack(alnum, d, e, text, Compress(alnum, d, text, []).out)
  {
    CompressOk(alnum, d, text, []);
    BackExactly(alnum, d, text, [], e);
    if MARKER !in text { NoMarkersHeld(alnum, d, text, []); }
    assert [] + text == text;
    hide DictOk, WordsStart, Compress, Uncompress, MarkersHeld, Extends;
  }
}
