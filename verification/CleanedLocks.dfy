/** Locks that have been cleaned up still decompile, and what they decompile to
    reads back as the lock with the destroyed objects gone. */
module CleanedLocks {
  import opened Bytes
  import opened LockTree
  import opened LockAsm
  import opened JumpThreading
  import opened LockBytecode
  import opened LockCompiler
  import opened LockGrammar
  import opened LockDecompile
  import opened LockStored
  import opened LockUnparse
  import opened LockCleanup

  // ----- Trees and tokens without the destroyed objects

  /** The tree with each test of a destroyed object replaced by #false. */
  function Prune(n: Node, garbage: int -> bool): Node {
    match n
    case And(a, b) => And(Prune(a, garbage), Prune(b, garbage))
    case Or(a, b) => Or(Prune(a, garbage), Prune(b, garbage))
    case Not(m) => Not(Prune(m, garbage))
    case Const(x) => if garbage(x) then Bool(false) else n
    case Is(x) => if garbage(x) then Bool(false) else n
    case Carry(x) => if garbage(x) then Bool(false) else n
    case Owner(x) => if garbage(x) then Bool(false) else n
    case Ind(x, _) => if garbage(x) then Bool(false) else n
    case _ => n
  }

  /** A test of one object that `garbage` says is gone. */
  predicate OfGarbage(t: Node, garbage: int -> bool) {
    (t.Const? || t.Is? || t.Carry? || t.Owner? || t.Ind?) && garbage(t.thing)
  }

  /** The tests that are left are all those that are not of an object that is gone. */
  lemma {:induction false} PruneTests(n: Node, garbage: int -> bool)
    ensures Tests(Prune(n, garbage)) == set t | t in Tests(n) && !OfGarbage(t, garbage)
  {
    match n
    case And(a, b) => PruneTests(a, garbage); PruneTests(b, garbage);
    case Or(a, b) => PruneTests(a, garbage); PruneTests(b, garbage);
    case Not(m) => PruneTests(m, garbage);
    case _ =>
  }

  lemma {:induction false} PruneMeaning<S(!new)>(w: World<S>, n: Node, garbage: int -> bool, r: bool, s: S)
    requires forall x :: garbage(x) ==> Dead(w, x)
    ensures EvalNode(w, Prune(n, garbage), r, s) == EvalNode(w, n, r, s)
  {
    match n
    case And(a, b) =>
      PruneMeaning(w, a, garbage, r, s);
      var (r1, s1) := EvalNode(w, a, r, s);
      PruneMeaning(w, b, garbage, r1, s1);
    case Or(a, b) =>
      PruneMeaning(w, a, garbage, r, s);
      var (r1, s1) := EvalNode(w, a, r, s);
      PruneMeaning(w, b, garbage, r1, s1);
    case Not(m) => PruneMeaning(w, m, garbage, r, s);
    case _ =>
  }

  function PruneToken(t: Token, garbage: int -> bool): Token {
    if t.TkAtom? then TkAtom(Prune(t.atom, garbage)) else t
  }

  function Pruned(ts: Tokens, garbage: int -> bool): (us: Tokens)
    ensures |us| == |ts|
  {
    seq(|ts|, i requires 0 <= i < |ts| => PruneToken(ts[i], garbage))
  }

  lemma PrunedConcat(ts: Tokens, us: Tokens, garbage: int -> bool)
    ensures Pruned(ts + us, garbage) == Pruned(ts, garbage) + Pruned(us, garbage)
  {
  }

  /** Printing and pruning can be done in either order. */
  lemma {:induction false} PrunedPrint(y: Style, n: Node, outer: Outer, garbage: int -> bool)
    ensures Pruned(Print(y, n, outer), garbage) == Print(y, Prune(n, garbage), outer)
  {
    match n
    case And(a, b) =>
      PrunedPrint(y, a, UnderAnd, garbage);
      PrunedPrint(y, b, UnderAnd, garbage);
      PrunedPair(y, n, outer, Print(y, a, UnderAnd), TkAnd, Print(y, b, UnderAnd), garbage);
    case Or(a, b) =>
      PrunedPrint(y, a, UnderOr, garbage);
      PrunedPrint(y, b, UnderOr, garbage);
      PrunedPair(y, n, outer, Print(y, a, UnderOr), TkOr, Print(y, b, UnderOr), garbage);
    case Not(m) =>
      PrunedPrint(y, m, UnderNot, garbage);
      PrunedConcat([TkNot], Print(y, m, UnderNot), garbage);
      assert Pruned([TkNot], garbage) == [TkNot];
    case _ =>
      assert Pruned([TkAtom(n)], garbage) == [TkAtom(Prune(n, garbage))];
  }

  lemma PrunedPair(y: Style, n: Node, outer: Outer, pa: Tokens, t: Token, pb: Tokens, garbage: int -> bool)
    requires !t.TkAtom? && (n.And? || n.Or?)
    ensures Pruned(Wrap(y, n, outer, pa + [t] + pb), garbage) ==
            Wrap(y, Prune(n, garbage), outer, Pruned(pa, garbage) + [t] + Pruned(pb, garbage))
  {
    var ts, us := pa + [t] + pb, Pruned(pa, garbage) + [t] + Pruned(pb, garbage);
    assert Pruned(ts, garbage) == us;
    assert Pruned([TkOpen] + ts + [TkClose], garbage) == [TkOpen] + us + [TkClose];
  }

  // ----- Cleaned bytes

  /** The first `blen` bytes are instructions, the last of them the only RET,
      and no string starts among them. */
  ghost predicate Sectioned(bytes: seq<Byte>, blen: nat) {
    && blen <= |bytes| && blen % INSN_LEN == 0
    && forall i {:trigger SectionedAt(bytes, blen, i)} :: 0 <= i && (i + 1) * INSN_LEN <= blen ==> SectionedAt(bytes, blen, i)
  }

  predicate SectionedAt(bytes: seq<Byte>, blen: nat, i: nat)
    requires (i + 1) * INSN_LEN <= blen <= |bytes|
  {
    var pc := i * INSN_LEN;
    && (OpAt(bytes, pc) == RET <==> (i + 1) * INSN_LEN == blen)
    && (HasString(OpAt(bytes, pc)) ==> ArgAt(bytes, pc) >= blen)
  }

  /** Instruction `i` of `c` is that of `b`, or loads #false in place of a test
      of a destroyed object. */
  predicate ScrubbedAt(b: seq<Byte>, c: seq<Byte>, garbage: int -> bool, i: nat)
    requires (i + 1) * INSN_LEN <= |b| == |c|
  {
    var pc := i * INSN_LEN;
    if Doomed(OpAt(b, pc), ArgAt(b, pc), garbage) then OpAt(c, pc) == LOADR && ArgAt(c, pc) == 0
    else OpAt(c, pc) == OpAt(b, pc) && ArgAt(c, pc) == ArgAt(b, pc)
  }

  ghost predicate Scrubbed(b: seq<Byte>, c: seq<Byte>, blen: nat, garbage: int -> bool, from: nat) {
    && blen <= |b| == |c| && (forall k :: blen <= k < |b| ==> b[k] == c[k])
    && forall i {:trigger ScrubbedAt(b, c, garbage, i)} :: from <= i && (i + 1) * INSN_LEN <= blen ==> ScrubbedAt(b, c, garbage, i)
  }

  lemma OverwriteSectioned(b: seq<Byte>, blen: nat, garbage: int -> bool, i: nat)
    requires Sectioned(b, blen) && (i + 1) * INSN_LEN <= blen
    requires Doomed(OpAt(b, i * INSN_LEN), ArgAt(b, i * INSN_LEN), garbage)
    ensures Sectioned(Overwrite(b, i * INSN_LEN), blen)
  {
    var c := Overwrite(b, i * INSN_LEN);
    SameBehind(b, c, blen, i);
    hide Overwrite, OpAt, ArgAt, Doomed, HasString, SectionedAt;
    forall j: nat | (j + 1) * INSN_LEN <= blen ensures SectionedAt(c, blen, j) {
      assert SectionedAt(b, blen, i) && SectionedAt(b, blen, j);
      OverwriteSectionedAt(b, blen, garbage, i, j);
    }
  }

  lemma OverwriteSectionedAt(b: seq<Byte>, blen: nat, garbage: int -> bool, i: nat, j: nat)
    requires (i + 1) * INSN_LEN <= blen <= |b| && (j + 1) * INSN_LEN <= blen && SectionedAt(b, blen, i) && SectionedAt(b, blen, j)
    requires Doomed(OpAt(b, i * INSN_LEN), ArgAt(b, i * INSN_LEN), garbage) && |Overwrite(b, i * INSN_LEN)| == |b|
    ensures SectionedAt(Overwrite(b, i * INSN_LEN), blen, j)
  {
    hide Overwrite, OpAt, ArgAt;
    if j == i { OverwriteHere(b, i * INSN_LEN); } else { OverwriteElsewhere(b, i * INSN_LEN, j * INSN_LEN); }
  }

  /** Cleaning up from instruction `i` on scrubs all there is from there. */
  lemma {:induction false} CleanedScrubs(b: seq<Byte>, blen: nat, garbage: int -> bool, i: nat)
    requires Sectioned(b, blen) && (i + 1) * INSN_LEN <= blen
    ensures Scrubbed(b, Cleaned(b, garbage, i * INSN_LEN), blen, garbage, i)
    decreases |b| - i
  {
    hide Overwrite, OpAt, ArgAt, Doomed, Sectioned, Cleaned, Scrubbed;
    var pc := i * INSN_LEN;
    SectionedHere(b, blen, i);
    CleanedStep(b, garbage, pc);
    if OpAt(b, pc) == RET {
      ScrubbedLast(b, blen, garbage, i);
    } else {
      var d := if Doomed(OpAt(b, pc), ArgAt(b, pc), garbage) then Overwrite(b, pc) else b;
      OverwriteAt(b, pc);
      if d != b { OverwriteSectioned(b, blen, garbage, i); }
      CleanedScrubs(d, blen, garbage, i + 1);
      CleanedKeepsInsn(d, garbage, pc);
      ScrubbedMore(b, d, Cleaned(b, garbage, pc), blen, garbage, i);
    }
  }

  lemma SectionedHere(b: seq<Byte>, blen: nat, i: nat)
    requires Sectioned(b, blen) && (i + 1) * INSN_LEN <= blen
    ensures InsnAt(b, i * INSN_LEN) && SectionedAt(b, blen, i) && blen % INSN_LEN == 0
    ensures OpAt(b, i * INSN_LEN) != RET ==> (i + 2) * INSN_LEN <= blen
    ensures OpAt(b, i * INSN_LEN) == LOADS ==> ArgAt(b, i * INSN_LEN) >= blen
  {
    assert SectionedAt(b, blen, i);
  }

  lemma ScrubbedLast(b: seq<Byte>, blen: nat, garbage: int -> bool, i: nat)
    requires Sectioned(b, blen) && (i + 1) * INSN_LEN <= blen && OpAt(b, i * INSN_LEN) == RET
    ensures Scrubbed(b, b, blen, garbage, i)
  {
    hide OpAt, ArgAt;
    assert SectionedAt(b, blen, i);
    assert ScrubbedAt(b, b, garbage, i);
  }

  /** Instruction `i` has been dealt with in `d`, and what comes after it in `c`. */
  lemma ScrubbedMore(b: seq<Byte>, d: seq<Byte>, c: seq<Byte>, blen: nat, garbage: int -> bool, i: nat)
    requires (i + 1) * INSN_LEN <= blen && blen % INSN_LEN == 0 && Scrubbed(d, c, blen, garbage, i + 1) && InsnAt(b, i * INSN_LEN)
    requires d == if Doomed(OpAt(b, i * INSN_LEN), ArgAt(b, i * INSN_LEN), garbage) then Overwrite(b, i * INSN_LEN) else b
    requires OpAt(c, i * INSN_LEN) == OpAt(d, i * INSN_LEN) && ArgAt(c, i * INSN_LEN) == ArgAt(d, i * INSN_LEN)
    ensures Scrubbed(b, c, blen, garbage, i)
  {
    var pc := i * INSN_LEN;
    SameBehind(b, d, blen, i);
    OverwriteHere(b, pc);
    assert ScrubbedAt(b, c, garbage, i) by { hide Overwrite, OpAt, ArgAt, Doomed; }
    hide Overwrite, OpAt, ArgAt, Doomed, ScrubbedAt;
    forall j: nat | i < j && (j + 1) * INSN_LEN <= blen ensures ScrubbedAt(b, c, garbage, j) {
      assert ScrubbedAt(d, c, garbage, j);
      if d != b { ScrubbedElsewhere(b, c, garbage, i, j); }
    }
  }

  lemma ScrubbedElsewhere(b: seq<Byte>, c: seq<Byte>, garbage: int -> bool, i: nat, j: nat)
    requires (i + 1) * INSN_LEN <= |b| && (j + 1) * INSN_LEN <= |b| == |c| == |Overwrite(b, i * INSN_LEN)| && i != j
    requires ScrubbedAt(Overwrite(b, i * INSN_LEN), c, garbage, j)
    ensures ScrubbedAt(b, c, garbage, j)
  {
    hide Overwrite, OpAt, ArgAt, Doomed;
    OverwriteElsewhere(b, i * INSN_LEN, j * INSN_LEN);
  }

  lemma SameBehind(b: seq<Byte>, d: seq<Byte>, blen: nat, i: nat)
    requires InsnAt(b, i * INSN_LEN) && (d == b || d == Overwrite(b, i * INSN_LEN)) && (i + 1) * INSN_LEN <= blen
    ensures |d| == |b| && forall k :: blen <= k < |b| ==> b[k] == d[k]
  {
    OverwriteAt(b, i * INSN_LEN);
    hide Overwrite;
  }

  // ----- Decompiling them

  /** Parentheses and NEGRs are where they were. */
  lemma SameMarks(b: seq<Byte>, c: seq<Byte>, blen: nat, garbage: int -> bool, i: nat)
    requires Scrubbed(b, c, blen, garbage, 0) && blen % INSN_LEN == 0
    ensures var pc := i * INSN_LEN;
            && InsnAt(b, pc) == InsnAt(c, pc) && NegatesBytes(b, pc) == NegatesBytes(c, pc)
            && (InsnAt(b, pc) ==> (OpAt(b, pc) == PAREN <==> OpAt(c, pc) == PAREN))
            && (InsnAt(b, pc) && OpAt(b, pc) == PAREN ==> ArgAt(b, pc) == ArgAt(c, pc))
  {
    var pc := i * INSN_LEN;
    if InsnAt(b, pc) {
      if pc < blen {
        assert ScrubbedAt(b, c, garbage, i);
        hide OpAt, ArgAt;
      } else {
        SameBeyond(b, c, blen, pc);
      }
    }
  }

  lemma SameBeyond(b: seq<Byte>, c: seq<Byte>, blen: nat, pc: nat)
    requires |b| == |c| && blen <= pc && InsnAt(b, pc) && forall k :: blen <= k < |b| ==> b[k] == c[k]
    ensures OpAt(b, pc) == OpAt(c, pc) && ArgAt(b, pc) == ArgAt(c, pc)
  {
    var x, y := b[pc + 1..pc + INSN_LEN], c[pc + 1..pc + INSN_LEN];
    forall j | 0 <= j < |x| ensures x[j] == y[j] {
      assert b[pc + 1 + j] == c[pc + 1 + j];
    }
    assert x == y;
  }

  lemma {:induction false} SameClose(b: seq<Byte>, c: seq<Byte>, blen: nat, garbage: int -> bool, i: nat, depth: int)
    requires Scrubbed(b, c, blen, garbage, 0) && blen % INSN_LEN == 0
    ensures var q := AfterCloseBytes(b, i * INSN_LEN, depth); AfterCloseBytes(c, i * INSN_LEN, depth) == q && q % INSN_LEN == 0
    decreases |b| - i
  {
    SameMarks(b, c, blen, garbage, i);
    hide OpAt, ArgAt, Scrubbed;
    var pc := i * INSN_LEN;
    if InsnAt(b, pc) {
      var depth' := if OpAt(b, pc) != PAREN then depth else if ArgAt(b, pc) != 0 then depth - 1 else depth + 1;
      SameClose(b, c, blen, garbage, i + 1, depth');
    }
  }

  lemma SameNegated(b: seq<Byte>, c: seq<Byte>, blen: nat, garbage: int -> bool, i: nat)
    requires Scrubbed(b, c, blen, garbage, 0) && blen % INSN_LEN == 0
    requires InsnAt(b, i * INSN_LEN) && InsnAt(c, i * INSN_LEN)
    ensures NegatedBytes(b, i * INSN_LEN) == NegatedBytes(c, i * INSN_LEN)
  {
    hide OpAt, ArgAt, Scrubbed, AfterCloseBytes, NegatesBytes;
    SameMarks(b, c, blen, garbage, i);
    SameMarks(b, c, blen, garbage, i + 1);
    SameClose(b, c, blen, garbage, i + 1, 1);
    SameMarks(b, c, blen, garbage, AfterCloseBytes(b, (i + 1) * INSN_LEN, 1) / INSN_LEN);
  }

  lemma SameText(b: seq<Byte>, c: seq<Byte>, blen: nat, garbage: int -> bool, a: int)
    requires Scrubbed(b, c, blen, garbage, 0) && (a < 0 || a >= blen)
    ensures CStringAt(b, a) == CStringAt(c, a)
  {
    if a >= 0 { CStringFrame(b, c, blen, a); }
  }

  lemma PrunedParts(ts: Tokens, h: Tokens, rest: Tokens, us: Tokens, h': Tokens, rest': Tokens, garbage: int -> bool)
    requires ts == h + rest && us == h' + rest' && h' == Pruned(h, garbage) && rest' == Pruned(rest, garbage)
    ensures us == Pruned(ts, garbage)
  {
    PrunedConcat(h, rest, garbage);
  }

  lemma PrunedEmpty(garbage: int -> bool)
    ensures Pruned([], garbage) == []
  {
  }

  lemma PrunedOne(t: Token, garbage: int -> bool)
    ensures Pruned([t], garbage) == [PruneToken(t, garbage)]
  {
  }

  /** What an instruction itself is shown as, and what is left of that. */
  lemma PrunedShown(op: Op, arg: int, name: Text, text: Text, text': Text, garbage: int -> bool)
    requires HasString(op) ==> text == text'
    ensures Pruned(Shown(op, arg, name, text), garbage) ==
            if Doomed(op, arg, garbage) then [TkAtom(Bool(false))] else Shown(op, arg, name, text')
  {
    hide Pruned;
    var ts := Shown(op, arg, name, text);
    if ts != [] { PrunedOne(ts[0], garbage); } else { PrunedEmpty(garbage); }
  }

  lemma PrunedBang(b: bool, ts: Tokens, garbage: int -> bool)
    ensures Pruned(Bang(b) + ts, garbage) == Bang(b) + Pruned(ts, garbage)
  {
  }

  /** What the instruction at `pc` prints. */
  function Head(bytes: seq<Byte>, pc: int, s: int): Tokens
    requires InsnAt(bytes, pc)
  {
    Bang(NegatedBytes(bytes, pc)) + Shown(OpAt(bytes, pc), ArgAt(bytes, pc), CStringAt(bytes, s), CStringAt(bytes, ArgAt(bytes, pc)))
  }

  lemma UnparseHead(bytes: seq<Byte>, pc: int, s: int)
    requires InsnAt(bytes, pc)
    ensures UnparseBytes(bytes, pc, s) ==
            if OpAt(bytes, pc) == RET then []
            else Head(bytes, pc, s) + UnparseBytes(bytes, pc + INSN_LEN, if OpAt(bytes, pc) == LOADS then ArgAt(bytes, pc) else s)
  {
    hide UnparseBytes, OpAt, ArgAt, Shown, Bang, CStringAt, NegatedBytes;
    UnparseStep(bytes, pc, s);
  }

  lemma HeadScrubbed(b: seq<Byte>, c: seq<Byte>, blen: nat, garbage: int -> bool, i: nat, s: int)
    requires Scrubbed(b, c, blen, garbage, 0) && blen % INSN_LEN == 0 && (i + 1) * INSN_LEN <= blen
    requires SectionedAt(b, blen, i) && (s < 0 || s >= blen)
    ensures Head(c, i * INSN_LEN, s) == Pruned(Head(b, i * INSN_LEN, s), garbage)
  {
    assert ScrubbedAt(b, c, garbage, i);
    hide OpAt, ArgAt, Scrubbed, Shown, Bang, CStringAt, NegatedBytes, Pruned;
    var pc := i * INSN_LEN;
    var op, arg, name := OpAt(b, pc), ArgAt(b, pc), CStringAt(b, s);
    SameNegated(b, c, blen, garbage, i);
    SameText(b, c, blen, garbage, s);
    if HasString(op) { SameText(b, c, blen, garbage, arg); }
    PrunedShown(op, arg, name, CStringAt(b, arg), CStringAt(c, arg), garbage);
    PrunedBang(NegatedBytes(b, pc), Shown(op, arg, name, CStringAt(b, arg)), garbage);
    ShownFalse(name, CStringAt(c, 0));
  }

  lemma ShownFalse(name: Text, text: Text)
    ensures Shown(LOADR, 0, name, text) == [TkAtom(Bool(false))]
  {
  }

  /** Decompiling what has been cleaned up prints what it would have printed
      before, with #false in place of the tests that are gone. */
  lemma {:induction false} UnparseScrubbed(b: seq<Byte>, c: seq<Byte>, blen: nat, garbage: int -> bool, i: nat, s: int)
    requires Sectioned(b, blen) && Scrubbed(b, c, blen, garbage, 0) && (i + 1) * INSN_LEN <= blen && (s < 0 || s >= blen)
    ensures UnparseBytes(c, i * INSN_LEN, s) == Pruned(UnparseBytes(b, i * INSN_LEN, s), garbage)
    decreases |b| - i
  {
    hide OpAt, ArgAt, Sectioned, SectionedAt, Scrubbed, ScrubbedAt, Head, Pruned, UnparseBytes;
    SectionedHere(b, blen, i);
    ScrubbedHere(b, c, blen, garbage, i);
    if OpAt(b, i * INSN_LEN) == RET {
      UnparseHead(b, i * INSN_LEN, s);
      UnparseHead(c, i * INSN_LEN, s);
      PrunedEmpty(garbage);
    } else {
      HeadScrubbed(b, c, blen, garbage, i, s);
      UnparseScrubbed(b, c, blen, garbage, i + 1, if OpAt(b, i * INSN_LEN) == LOADS then ArgAt(b, i * INSN_LEN) else s);
      UnparseStepScrubbed(b, c, garbage, i * INSN_LEN, s);
    }
  }

  /** One step of that, when what it prints and what comes after it are pruned. */
  lemma UnparseStepScrubbed(b: seq<Byte>, c: seq<Byte>, garbage: int -> bool, pc: int, s: int)
    requires InsnAt(b, pc) && InsnAt(c, pc) && OpAt(b, pc) != RET && OpAt(c, pc) != RET
    requires (OpAt(b, pc) == LOADS <==> OpAt(c, pc) == LOADS) && (OpAt(b, pc) == LOADS ==> ArgAt(c, pc) == ArgAt(b, pc))
    requires Head(c, pc, s) == Pruned(Head(b, pc, s), garbage)
    requires var s' := if OpAt(b, pc) == LOADS then ArgAt(b, pc) else s;
             UnparseBytes(c, pc + INSN_LEN, s') == Pruned(UnparseBytes(b, pc + INSN_LEN, s'), garbage)
    ensures UnparseBytes(c, pc, s) == Pruned(UnparseBytes(b, pc, s), garbage)
  {
    hide OpAt, ArgAt, Head, Pruned, UnparseBytes;
    var s' := if OpAt(b, pc) == LOADS then ArgAt(b, pc) else s;
    UnparseHead(b, pc, s);
    UnparseHead(c, pc, s);
    PrunedParts(UnparseBytes(b, pc, s), Head(b, pc, s), UnparseBytes(b, pc + INSN_LEN, s'),
                UnparseBytes(c, pc, s), Head(c, pc, s), UnparseBytes(c, pc + INSN_LEN, s'), garbage);
  }

  lemma ScrubbedHere(b: seq<Byte>, c: seq<Byte>, blen: nat, garbage: int -> bool, i: nat)
    requires Scrubbed(b, c, blen, garbage, 0) && (i + 1) * INSN_LEN <= blen
    ensures var pc := i * INSN_LEN;
            && |b| == |c| && InsnAt(b, pc) && InsnAt(c, pc) && (OpAt(b, pc) == RET <==> OpAt(c, pc) == RET)
            && (OpAt(b, pc) == LOADS <==> OpAt(c, pc) == LOADS) && (OpAt(b, pc) == LOADS ==> ArgAt(c, pc) == ArgAt(b, pc))
  {
    assert ScrubbedAt(b, c, garbage, i);
    hide OpAt, ArgAt;
  }

  /** And the decompiler does not run off the end. */
  lemma {:induction false} WalkableScrubbed(b: seq<Byte>, c: seq<Byte>, blen: nat, garbage: int -> bool, i: nat)
    requires Sectioned(b, blen) && Scrubbed(b, c, blen, garbage, 0) && (i + 1) * INSN_LEN <= blen
    requires Walkable(b, i * INSN_LEN)
    ensures Walkable(c, i * INSN_LEN)
    decreases |b| - i
  {
    hide OpAt, ArgAt, Sectioned, Scrubbed, AfterCloseBytes, Walkable;
    SectionedHere(b, blen, i);
    WalkableStep(b, i * INSN_LEN);
    WalkableStep(c, i * INSN_LEN);
    ScrubbedHere(b, c, blen, garbage, i);
    SameMarks(b, c, blen, garbage, i);
    SameClose(b, c, blen, garbage, i + 1, 1);
    if OpAt(b, i * INSN_LEN) != RET { WalkableScrubbed(b, c, blen, garbage, i + 1); }
  }

  lemma WalkableStep(bytes: seq<Byte>, pc: int)
    ensures Walkable(bytes, pc) <==>
            && InsnAt(bytes, pc)
            && (OpAt(bytes, pc) != RET ==>
                  && InsnAt(bytes, pc + INSN_LEN)
                  && (OpAt(bytes, pc) == PAREN && ArgAt(bytes, pc) == 0 ==> InsnAt(bytes, AfterCloseBytes(bytes, pc + INSN_LEN, 1)))
                  && Walkable(bytes, pc + INSN_LEN))
  {
  }

  // ----- Compiled locks

  lemma CompiledSectioned(n: Node)
    requires Compilable(n)
    ensures Sectioned(Compile(n), CodeLength(n)) && INSN_LEN <= CodeLength(n)
  {
    hide Stored, Compile, CodeLength, SectionedAt;
    StoredCount(n);
    StoredEnds(n);
    CompiledFits(n);
    forall i: nat | (i + 1) * INSN_LEN <= CodeLength(n) ensures SectionedAt(Compile(n), CodeLength(n), i) {
      CompiledSectionedAt(n, i);
    }
  }

  lemma CompiledSectionedAt(n: Node, i: nat)
    requires Compilable(n) && (i + 1) * INSN_LEN <= CodeLength(n)
    ensures SectionedAt(Compile(n), CodeLength(n), i)
  {
    hide Stored, Compile, CodeLength, OpAt, ArgAt, CStringAt;
    StoredCount(n);
    StoredEnds(n);
    StoredIs(n, i);
    StoredText(n, i);
  }

  lemma CompiledFits(n: Node)
    ensures CodeLength(n) <= |Compile(n)|
  {
  }

  /** Strings are stored behind the instructions. */
  lemma StoredText(n: Node, i: nat)
    requires Compilable(n) && i < |Stored(n)|
    ensures InsnAt(Compile(n), i * INSN_LEN)
    ensures HasString(Stored(n)[i].op) ==> ArgAt(Compile(n), i * INSN_LEN) >= CodeLength(n)
  {
    AssembleEmittable(n);
    hide Assemble, Skeleton, Emittable, Emit, OpAt, ArgAt;
    var code := Assemble(n).insns;
    PlaceIs(code, i);
    DecodeInsn(code, Assemble(n).strs, Place(code, i));
  }

  /** Decompiling a cleaned-up lock and parsing the text gives the rewritten
      tree with the destroyed objects gone. */
  lemma CleanedParses(n: Node, garbage: int -> bool)
    requires Compilable(n)
    ensures var c := Cleaned(Compile(n), garbage, 0);
            && Walkable(c, 0)
            && UnparseBytes(c, 0, -1) == Print(Server, Prune(Optimize(n), garbage), Alone)
            && ParseE(UnparseBytes(c, 0, -1)) == Ok(Nest(Server, Prune(Optimize(n), garbage)), [])
  {
    hide Compile, CodeLength, Cleaned, Sectioned, Scrubbed, UnparseBytes, Walkable, Optimize, Print, Pruned, Prune, ParseE;
    CompiledSectioned(n);
    CleanedScrubs(Compile(n), CodeLength(n), garbage, 0);
    var b, c := Compile(n), Cleaned(Compile(n), garbage, 0);
    DecompilePrints(n);
    UnparseScrubbed(b, c, CodeLength(n), garbage, 0, -1);
    WalkableScrubbed(b, c, CodeLength(n), garbage, 0);
    PrunedPrint(Server, Optimize(n), Alone, garbage);
    PrintParses(Server, Prune(Optimize(n), garbage));
  }

  /** So while the destroyed objects stay dead, the lock that is read back still
      means what the lock first parsed meant. */
  lemma CleanedReadsBack<S(!new)>(w: World<S>, n: Node, garbage: int -> bool, s: S)
    requires Compilable(n) && forall x :: garbage(x) ==> Dead(w, x)
    ensures var p := ParseE(UnparseBytes(Cleaned(Compile(n), garbage, 0), 0, -1));
            p.Ok? && EvalNode(w, p.n, false, s) == EvalNode(w, n, false, s)
  {
    hide Compile, Cleaned, UnparseBytes, Optimize, Prune, ParseE, Nest, EvalNode;
    CleanedParses(n, garbage);
    NestMeaning(Server, w, Prune(Optimize(n), garbage), false, s);
    PruneMeaning(w, Optimize(n), garbage, false, s);
    OptimizePreservesMeaning(w, n, false, s);
  }
}
