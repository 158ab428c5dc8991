/** Turning bytecode back into text, and why parsing that text gives the lock
    back. */
module LockDecompile {
  import opened Bytes
  import opened LockTree
  import opened LockAsm
  import opened JumpThreading
  import opened LockGrammar

  // ----- Decompiling, on instructions

  /** The tokens an instruction itself is shown as. */
  function Shown(op: Op, arg: int, name: Text, text: Text): Tokens {
    match op
    case JMPT => [TkOr]
    case JMPF => [TkAnd]
    case LOADR => [TkAtom(Bool(arg != 0))]
    case PAREN => if arg == 0 then [TkOpen] else if arg == 1 then [TkClose] else []
    case TCONST => [TkAtom(Const(arg))]
    case TATR => [TkAtom(Atr(name, text))]
    case TIND => [TkAtom(Ind(arg, name))]
    case TCARRY => [TkAtom(Carry(arg))]
    case TIS => [TkAtom(Is(arg))]
    case TOWNER => [TkAtom(Owner(arg))]
    case TEVAL => [TkAtom(Eval(name, text))]
    case TFLAG => [TkAtom(Flag(FLAG, text))]
    case TTYPE => [TkAtom(Flag(TYPE, text))]
    case TNAME => [TkAtom(Flag(NAME, text))]
    case TPOWER => [TkAtom(Flag(POWER, text))]
    case TCHANNEL => [TkAtom(Flag(CHANNEL, text))]
    case TIP => [TkAtom(Flag(IP, text))]
    case THOSTNAME => [TkAtom(Flag(HOSTNAME, text))]
    case TDBREFLIST => [TkAtom(Flag(DBREFLIST, text))]
    case _ => []
  }

  /** Just past the parenthesis that closes `depth` open ones, or the end. */
  function AfterClose(code: seq<Insn>, i: nat, depth: int): (k: nat)
    ensures i <= |code| ==> i <= k <= |code|
    decreases |code| - i
  {
    if i >= |code| then i
    else if code[i].op != PAREN then AfterClose(code, i + 1, depth)
    else
      var depth' := if code[i].arg != 0 then depth - 1 else depth + 1;
      if depth' == 0 then i + 1 else AfterClose(code, i + 1, depth')
  }

  predicate Negates(code: seq<Insn>, i: nat) {
    i < |code| && code[i].op == NEGR
  }

  /** Whether a `!` goes in front of what instruction `i` is shown as. */
  predicate Negated(code: seq<Insn>, i: nat)
    requires i < |code|
  {
    if code[i].op == PAREN then code[i].arg == 0 && Negates(code, AfterClose(code, i + 1, 1)) else Negates(code, i + 1)
  }

  function Unparse(code: seq<Insn>, strs: seq<Text>, i: nat, sr: int): Tokens
    decreases |code| - i
  {
    if i >= |code| || code[i].op == RET then []
    else
      (if Negated(code, i) then [TkNot] else [])
      + Shown(code[i].op, code[i].arg, StringNo(strs, sr), StringNo(strs, code[i].arg))
      + Unparse(code, strs, i + 1, if code[i].op == LOADS then code[i].arg else sr)
  }

  // ----- Decompiled code is the printed tree

  /** The code of `n` without labels, after that of `a`. */
  function Bare(a: Asm): seq<Insn> {
    Skeleton(a.insns)
  }

  lemma BareAppend(a: Asm, op: Op, arg: int)
    ensures Bare(Append(a, op, arg)) ==
            Bare(a) + (if op == LABEL then [] else [Insn(op, if IsJump(op) then 0 else arg)])
  {
    SkeletonConcat(a.insns, [Insn(op, arg)]);
    var x := [Insn(op, arg)];
    assert x[1..] == [] && Skeleton(x[1..]) == [];
  }

  lemma BareAppendString(a: Asm, op: Op, s: Text)
    requires op != LABEL && !IsJump(op)
    ensures Bare(AppendString(a, op, s)) == Bare(a) + [Insn(op, FindString(a.strs, s))]
  {
    BareAppend(a, op, FindString(a.strs, s));
    assert AppendString(a, op, s).insns == Append(a, op, FindString(a.strs, s)).insns;
  }

  lemma BareLoaded(a: Asm, name: Text, op: Op, text: Text)
    requires op == TATR || op == TEVAL
    ensures Bare(AppendString(AppendString(a, LOADS, name), op, text)) == Bare(a) + Loaded(a, name, op, text)
  {
    hide FindString;
    BareAppendString(a, LOADS, name);
    BareAppendString(AppendString(a, LOADS, name), op, text);
  }

  lemma BareAtom(a: Asm, n: Node)
    requires IsAtom(n)
    ensures Bare(GenAtom(a, n)) == Bare(a) + AtomInsns(a, n)
  {
    hide Bare, FindString;
    match n
    case Ind(x, lock) => BareAppendString(a, LOADS, lock); BareAppend(AppendString(a, LOADS, lock), TIND, x);
    case Atr(name, text) => BareLoaded(a, name, TATR, text);
    case Eval(name, text) => BareLoaded(a, name, TEVAL, text);
    case Flag(key, text) => BareAppendString(a, FlagOp(key), text);
    case Is(x) => BareAppend(a, TIS, x);
    case Carry(x) => BareAppend(a, TCARRY, x);
    case Owner(x) => BareAppend(a, TOWNER, x);
    case Const(x) => BareAppend(a, TCONST, x);
    case Bool(v) => BareAppend(a, LOADR, if v then 1 else 0);
  }

  /** The stretches of label-free code that make up an AND or OR. */
  lemma BarePair(a: Asm, n: Node, outer: Outer)
    requires n.And? || n.Or?
    ensures var a0, a1, a2 := Open(a, n, outer), AfterJump(a, n, outer), AfterSecond(a, n, outer);
            && Bare(a0) == Bare(a) + (if Parens(n, outer) then [Insn(PAREN, 0)] else [])
            && Bare(a1) == Bare(Gen(a0, n.a, InnerOf(n))) + [Insn(JumpOf(n), 0)]
            && Bare(Gen(a, n, outer)) == Bare(a2) + (if Parens(n, outer) then [Insn(PAREN, 1)] else [])
  {
    hide Bare, Gen, GenPair, Append, Open, Close, AfterJump, AfterSecond;
    var a0, a2 := Open(a, n, outer), AfterSecond(a, n, outer);
    PairSteps(a, n, outer);
    BareIs(a, a.(labels := a.labels + 1));
    BareAppend(a.(labels := a.labels + 1), PAREN, 0);
    BareAppend(Gen(a0, n.a, InnerOf(n)), JumpOf(n), a.labels);
    BareAppend(a2, PAREN, 1);
    BareAppend(if Parens(n, outer) then Append(a2, PAREN, 1) else a2, LABEL, a.labels);
  }

  lemma BareIs(a: Asm, b: Asm)
    requires a.insns == b.insns
    ensures Bare(a) == Bare(b)
  {
  }

  /** Code only grows, and never starts with a NEGR. */
  lemma {:induction false} BareGen(a: Asm, n: Node, outer: Outer)
    ensures Bare(a) <= Bare(Gen(a, n, outer)) && |Bare(a)| < |Bare(Gen(a, n, outer))|
    ensures Bare(Gen(a, n, outer))[|Bare(a)|].op != NEGR
    decreases n
  {
    if n.And? || n.Or? {
      BarePair(a, n, outer);
      BareGen(Open(a, n, outer), n.a, InnerOf(n));
      BareGen(AfterJump(a, n, outer), n.b, InnerOf(n));
    } else if n.Not? {
      BareGen(a, n.n, UnderNot);
      BareAppend(Gen(a, n.n, UnderNot), NEGR, 0);
    } else {
      BareAtom(a, n);
      assert Bare(GenAtom(a, n))[|Bare(a)|] == AtomInsns(a, n)[0];
    }
  }

  /** The search for a closing parenthesis, one instruction on. */
  lemma AfterCloseStep(code: seq<Insn>, i: nat, j: nat, depth: nat)
    requires i <= j <= i + 1 && j <= |code| && depth > 0
    ensures i < j && code[i].op == PAREN && code[i].arg == 0 ==> AfterClose(code, i, depth) == AfterClose(code, j, depth + 1)
    ensures i < j && code[i] == Insn(PAREN, 1) && depth > 1 ==> AfterClose(code, i, depth) == AfterClose(code, j, depth - 1)
    ensures i == j || code[i].op != PAREN ==> AfterClose(code, i, depth) == AfterClose(code, j, depth)
  {
  }

  /** Parentheses balance, so the search for a closing one passes over `n`. */
  lemma {:induction false} AfterCloseSkips(a: Asm, n: Node, outer: Outer, code: seq<Insn>, depth: nat)
    requires Bare(Gen(a, n, outer)) <= code && depth > 0
    ensures AfterClose(code, |Bare(a)|, depth) == AfterClose(code, |Bare(Gen(a, n, outer))|, depth)
    decreases n, 1
  {
    hide Bare, AfterClose, Gen, GenPair, GenAtom, FindString;
    GenIs(a, n, outer);
    if n.And? || n.Or? {
      AfterCloseSkipsPair(a, n, outer, code, depth);
    } else if n.Not? {
      var g := Gen(a, n.n, UnderNot);
      BareAppend(g, NEGR, 0);
      AfterCloseSkips(a, n.n, UnderNot, code, depth);
      AfterCloseStep(code, |Bare(g)|, |Bare(g)| + 1, depth);
    } else {
      AfterCloseAtom(a, n, code, depth);
    }
  }

  lemma AfterCloseAtom(a: Asm, n: Node, code: seq<Insn>, depth: nat)
    requires IsAtom(n) && Bare(GenAtom(a, n)) <= code && depth > 0
    ensures AfterClose(code, |Bare(a)|, depth) == AfterClose(code, |Bare(GenAtom(a, n))|, depth)
  {
    hide Bare, FindString, GenAtom, AfterClose;
    BareAtom(a, n);
    var i, g := |Bare(a)|, AtomInsns(a, n);
    AtomPlain(a, n);
    hide AtomInsns;
    assert code[i] == g[0];
    AfterCloseStep(code, i, i + 1, depth);
    if |g| == 2 {
      assert code[i + 1] == g[1];
      AfterCloseStep(code, i + 1, i + 2, depth);
    }
  }

  lemma {:induction false} AfterCloseSkipsPair(a: Asm, n: Node, outer: Outer, code: seq<Insn>, depth: nat)
    requires n.And? || n.Or?
    requires Bare(Gen(a, n, outer)) <= code && depth > 0
    ensures AfterClose(code, |Bare(a)|, depth) == AfterClose(code, |Bare(Gen(a, n, outer))|, depth)
    decreases n, 0
  {
    hide Bare, Gen, GenPair, Open, AfterJump, AfterClose;
    var a0, a1, a2 := Open(a, n, outer), AfterJump(a, n, outer), AfterSecond(a, n, outer);
    var a0' := Gen(a0, n.a, InnerOf(n));
    BarePair(a, n, outer);
    BareGen(a0, n.a, InnerOf(n));
    BareGen(a1, n.b, InnerOf(n));
    var inner := if Parens(n, outer) then depth + 1 else depth;
    assert Bare(a0') <= Bare(a1) <= Bare(a2) <= code;
    AfterCloseSkips(a0, n.a, InnerOf(n), code, inner);
    AfterCloseSkips(a1, n.b, InnerOf(n), code, inner);
    AfterCloseThree(code, Bare(a), Bare(a0), Bare(a0'), Bare(a1), Bare(a2), Bare(Gen(a, n, outer)), Parens(n, outer), depth);
  }

  lemma AfterCloseThree(code: seq<Insn>, c: seq<Insn>, c0: seq<Insn>, c0': seq<Insn>, c1: seq<Insn>,
          c2: seq<Insn>, g: seq<Insn>, parens: bool, depth: nat)
    requires depth > 0 && c0 == (if parens then c + [Insn(PAREN, 0)] else c) && g == (if parens then c2 + [Insn(PAREN, 1)] else c2)
    requires c0 <= c0' <= c1 <= c2 && g <= code && |c1| == |c0'| + 1 && c1[|c0'|].op != PAREN
    requires var inner := if parens then depth + 1 else depth;
             AfterClose(code, |c0|, inner) == AfterClose(code, |c0'|, inner) && AfterClose(code, |c1|, inner) == AfterClose(code, |c2|, inner)
    ensures AfterClose(code, |c|, depth) == AfterClose(code, |g|, depth)
  {
    hide AfterClose;
    var inner := if parens then depth + 1 else depth;
    assert code[|c0'|] == c1[|c0'|];
    AfterCloseStep(code, |c0'|, |c1|, inner);
    if parens {
      assert code[|c|] == c0[|c|] && code[|c2|] == g[|c2|];
    }
    AfterCloseStep(code, |c|, |c0|, depth);
    AfterCloseStep(code, |c2|, |g|, inner);
  }

  function Bang(b: bool): Tokens {
    if b then [TkNot] else []
  }

  /** Decompiling from `i` shows `ts` and then goes on from `j`. */
  predicate Shows(code: seq<Insn>, strs: seq<Text>, i: nat, sr: int, ts: Tokens, j: nat, sr': int) {
    Unparse(code, strs, i, sr) == ts + Unparse(code, strs, j, sr')
  }

  lemma ShowsThen(code: seq<Insn>, strs: seq<Text>, i: nat, sr: int, ts: Tokens, j: nat, sr': int, us: Tokens,
          k: nat, sr'': int)
    requires Shows(code, strs, i, sr, ts, j, sr') && Shows(code, strs, j, sr', us, k, sr'')
    ensures Shows(code, strs, i, sr, ts + us, k, sr'')
  {
    assert ts + (us + Unparse(code, strs, k, sr'')) == (ts + us) + Unparse(code, strs, k, sr'');
  }

  /** One instruction. */
  lemma ShowsStep(code: seq<Insn>, strs: seq<Text>, i: nat, sr: int)
    requires i < |code| && code[i].op != RET
    ensures Shows(code, strs, i, sr,
                  Bang(Negated(code, i)) + Shown(code[i].op, code[i].arg, StringNo(strs, sr), StringNo(strs, code[i].arg)),
                  i + 1, if code[i].op == LOADS then code[i].arg else sr)
  {
  }

  /** What decompiling prints for `n`: the `!` of a NOT over a NOT comes out
      behind what is negated, every other one in front. */
  function Decompiled(n: Node, outer: Outer): Tokens {
    match n
    case And(a, b) => Wrap(Server, n, outer, Decompiled(a, UnderAnd) + [TkAnd] + Decompiled(b, UnderAnd))
    case Or(a, b) => Wrap(Server, n, outer, Decompiled(a, UnderOr) + [TkOr] + Decompiled(b, UnderOr))
    case Not(m) => if m.Not? then Decompiled(m, UnderNot) + [TkNot] else [TkNot] + Decompiled(m, UnderNot)
    case _ => [TkAtom(n)]
  }

  /** That, with the `!` for a NEGR that follows the code of `n`. */
  function Marked(n: Node, outer: Outer, b: bool): Tokens {
    if n.Not? then Decompiled(n, outer) + Bang(b) else Bang(b) + Decompiled(n, outer)
  }

  /** Decompiling the code of `n` shows just that, whatever tree `n` is. */
  lemma {:induction false} UnparseGen(a: Asm, n: Node, outer: Outer, code: seq<Insn>, strs: seq<Text>,
          sr: int) returns (sr': int)
    requires Bare(Gen(a, n, outer)) <= code && Gen(a, n, outer).strs <= strs
    requires Negates(code, |Bare(Gen(a, n, outer))|) ==> outer == UnderNot
    ensures var j := |Bare(Gen(a, n, outer))|; Shows(code, strs, |Bare(a)|, sr, Marked(n, outer, Negates(code, j)), j, sr')
    decreases n, 2
  {
    hide Bare, Shows, Unparse, Gen, GenPair, GenAtom, FindString, Decompiled;
    GenIs(a, n, outer);
    if n.And? || n.Or? {
      sr' := UnparseGenPair(a, n, outer, code, strs, sr);
    } else if n.Not? {
      sr' := UnparseGenNot(a, n, outer, code, strs, sr);
    } else {
      DecompiledAtom(n, outer);
      sr' := sr;
      if n.Atr? || n.Eval? || n.Ind? {
        sr' := UnparseGenLoaded(a, n, code, strs, sr);
      } else {
        UnparseGenAtom(a, n, code, strs, sr);
      }
    }
  }

  lemma DecompiledAtom(n: Node, outer: Outer)
    requires IsAtom(n)
    ensures Decompiled(n, outer) == [TkAtom(n)]
  {
  }

  lemma DecompiledNot(n: Node, outer: Outer)
    requires n.Not?
    ensures Decompiled(n, outer) == Marked(n.n, UnderNot, true)
  {
  }

  lemma {:induction false} UnparseGenNot(a: Asm, n: Node, outer: Outer, code: seq<Insn>, strs: seq<Text>,
          sr: int) returns (sr': int)
    requires n.Not? && Bare(Gen(a, n, outer)) <= code && Gen(a, n, outer).strs <= strs
    ensures var j := |Bare(Gen(a, n, outer))|;
            Shows(code, strs, |Bare(a)|, sr, Decompiled(n, outer) + Bang(Negates(code, j)), j, sr')
    decreases n, 0
  {
    hide Bare, Shows, Unparse, Gen, GenPair, Decompiled, Marked, Negates, Bang;
    var g := Gen(a, n.n, UnderNot);
    GenIs(a, n, outer);
    BareAppend(g, NEGR, 0);
    DecompiledNot(n, outer);
    var k := |Bare(g)|;
    assert code[k] == Insn(NEGR, 0);
    sr' := UnparseGen(a, n.n, UnderNot, code, strs, sr);
    NegrHere(code, k);
    ShowsNegr(code, strs, k, sr');
    ShowsThen(code, strs, |Bare(a)|, sr, Decompiled(n, outer), k, sr', Bang(Negates(code, k + 1)), k + 1, sr');
  }

  lemma NegrHere(code: seq<Insn>, k: nat)
    requires k < |code| && code[k].op == NEGR
    ensures Negates(code, k)
  {
  }

  /** A NEGR shows nothing but the `!` for one that follows it. */
  lemma ShowsNegr(code: seq<Insn>, strs: seq<Text>, k: nat, sr: int)
    requires k < |code| && code[k].op == NEGR
    ensures Shows(code, strs, k, sr, Bang(Negates(code, k + 1)), k + 1, sr)
  {
    hide Shows;
    var bang := Bang(Negates(code, k + 1));
    ShowsStep(code, strs, k, sr);
    assert bang + [] == bang;
  }

  lemma UnparseGenLoaded(a: Asm, n: Node, code: seq<Insn>, strs: seq<Text>, sr: int) returns (sr': int)
    requires n.Atr? || n.Eval? || n.Ind?
    requires Bare(GenAtom(a, n)) <= code && GenAtom(a, n).strs <= strs
    ensures var j := |Bare(GenAtom(a, n))|;
            Shows(code, strs, |Bare(a)|, sr, Bang(Negates(code, j)) + [TkAtom(n)], j, sr')
  {
    hide Bare, Shows, FindString, GenAtom, AppendString, Unparse, StringNo, Negates, AtomInsns, Shown;
    BareAtom(a, n);
    LoadedText(a, n, strs);
    AtomPlain(a, n);
    var i, g := |Bare(a)|, AtomInsns(a, n);
    LoadedShape(a, n, StringNo(strs, g[0].arg), StringNo(strs, g[1].arg));
    assert code[i] == g[0] && code[i + 1] == g[1];
    sr' := g[0].arg;
    ShowsLoaded(code, strs, i, sr);
  }

  /** A LOADS and the test that uses what it loads. */
  lemma ShowsLoaded(code: seq<Insn>, strs: seq<Text>, i: nat, sr: int)
    requires i + 1 < |code| && code[i].op == LOADS && UsesS(code[i + 1].op)
    ensures var name, text := StringNo(strs, code[i].arg), StringNo(strs, code[i + 1].arg);
            Shows(code, strs, i, sr, Bang(Negates(code, i + 2)) + Shown(code[i + 1].op, code[i + 1].arg, name, text), i + 2, code[i].arg)
  {
    hide Shows, Unparse, StringNo;
    var sr' := code[i].arg;
    ShowsStep(code, strs, i, sr);
    ShowsStep(code, strs, i + 1, sr');
    var ts := Bang(Negates(code, i + 2)) + Shown(code[i + 1].op, code[i + 1].arg, StringNo(strs, sr'), StringNo(strs, code[i + 1].arg));
    assert [] + ts == ts;
    ShowsThen(code, strs, i, sr, [], i + 1, sr', ts, i + 2, sr');
  }

  lemma UnparseGenAtom(a: Asm, n: Node, code: seq<Insn>, strs: seq<Text>, sr: int)
    requires IsAtom(n) && !n.Atr? && !n.Eval? && !n.Ind?
    requires Bare(GenAtom(a, n)) <= code && GenAtom(a, n).strs <= strs
    ensures var j := |Bare(GenAtom(a, n))|;
            Shows(code, strs, |Bare(a)|, sr, Bang(Negates(code, j)) + [TkAtom(n)], j, sr)
  {
    hide Bare, Shows, FindString, GenAtom, AppendString, Unparse, StringNo, Negates, AtomInsns, Shown;
    BareAtom(a, n);
    FlagText(a, n, strs);
    AtomPlain(a, n);
    var i, g := |Bare(a)|, AtomInsns(a, n);
    SingleShape(a, n, StringNo(strs, sr), StringNo(strs, g[0].arg));
    assert code[i] == g[0];
    ShowsStep(code, strs, i, sr);
  }

  lemma SingleShape(a: Asm, n: Node, name: Text, text: Text)
    requires IsAtom(n) && !n.Atr? && !n.Eval? && !n.Ind?
    ensures var g := AtomInsns(a, n); |g| == 1 && g[0].op != LOADS && g[0].op != PAREN && g[0].op != RET
    ensures var g := AtomInsns(a, n); (n.Flag? ==> n.text == text) ==> Shown(g[0].op, g[0].arg, name, text) == [TkAtom(n)]
  {
    hide FindString;
  }

  lemma LoadedShape(a: Asm, n: Node, name: Text, text: Text)
    requires n.Atr? || n.Eval? || n.Ind?
    ensures var g := AtomInsns(a, n); |g| == 2 && g[0].op == LOADS && UsesS(g[1].op)
    ensures var g := AtomInsns(a, n);
            name == (if n.Ind? then n.lock else n.name) && (!n.Ind? ==> text == n.text)
            ==> Shown(g[1].op, g[1].arg, name, text) == [TkAtom(n)]
  {
    hide FindString;
  }

  lemma {:induction false} UnparseGenPair(a: Asm, n: Node, outer: Outer, code: seq<Insn>, strs: seq<Text>,
          sr: int) returns (sr': int)
    requires n.And? || n.Or?
    requires Bare(Gen(a, n, outer)) <= code && Gen(a, n, outer).strs <= strs
    requires Negates(code, |Bare(Gen(a, n, outer))|) ==> outer == UnderNot
    ensures var j := |Bare(Gen(a, n, outer))|;
            Shows(code, strs, |Bare(a)|, sr, Bang(Negates(code, j)) + Decompiled(n, outer), j, sr')
    decreases n, 1
  {
    var o := InnerOf(n);
    var k, m := |Bare(Gen(Open(a, n, outer), n.a, o))|, |Bare(Gen(AfterJump(a, n, outer), n.b, o))|;
    var sr1 := UnparseFirst(a, n, outer, code, strs, sr);
    sr' := UnparseSecond(a, n, outer, code, strs, sr1);
    PairMarks(a, n, outer, code);
    hide *;
    ShowsPair(n, outer, code, strs, |Bare(a)|, sr, k, sr1, m, sr', |Bare(Gen(a, n, outer))|);
  }

  lemma {:induction false} UnparseFirst(a: Asm, n: Node, outer: Outer, code: seq<Insn>, strs: seq<Text>,
          sr: int) returns (sr': int)
    requires n.And? || n.Or?
    requires Bare(Gen(a, n, outer)) <= code && Gen(a, n, outer).strs <= strs
    ensures var a0, o := Open(a, n, outer), InnerOf(n);
            Shows(code, strs, |Bare(a0)|, sr, Decompiled(n.a, o), |Bare(Gen(a0, n.a, o))|, sr')
    decreases n, 0
  {
    PairPlaces(a, n, outer, code);
    PairStrings(a, n, outer);
    hide Bare, Gen, GenPair, Open, AfterJump, Shows, Decompiled, Marked, Negates;
    sr' := UnparseGen(Open(a, n, outer), n.a, InnerOf(n), code, strs, sr);
    Unmarked(n.a, InnerOf(n));
  }

  lemma {:induction false} UnparseSecond(a: Asm, n: Node, outer: Outer, code: seq<Insn>, strs: seq<Text>,
          sr: int) returns (sr': int)
    requires n.And? || n.Or?
    requires Bare(Gen(a, n, outer)) <= code && Gen(a, n, outer).strs <= strs
    requires Negates(code, |Bare(Gen(a, n, outer))|) ==> outer == UnderNot
    ensures var a1, o := AfterJump(a, n, outer), InnerOf(n);
            Shows(code, strs, |Bare(a1)|, sr, Decompiled(n.b, o), |Bare(Gen(a1, n.b, o))|, sr')
    decreases n, 0
  {
    PairPlaces(a, n, outer, code);
    PairStrings(a, n, outer);
    hide Bare, Gen, GenPair, Open, AfterJump, Shows, Decompiled, Marked, Negates;
    sr' := UnparseGen(AfterJump(a, n, outer), n.b, InnerOf(n), code, strs, sr);
    Unmarked(n.b, InnerOf(n));
  }

  lemma Unmarked(n: Node, outer: Outer)
    ensures Marked(n, outer, false) == Decompiled(n, outer)
  {
  }

  predicate PairMarked(n: Node, outer: Outer, code: seq<Insn>, i: nat, k: nat, m: nat, j: nat)
  {
    && k + 1 < |code| && code[k].op == JumpOf(n) && !Negates(code, k + 1)
    && (if Parens(n, outer) then
          && i < m < |code| && code[i] == Insn(PAREN, 0) && code[m] == Insn(PAREN, 1) && j == m + 1
          && Negated(code, i) == Negates(code, j)
        else j == m)
  }

  lemma PairMarks(a: Asm, n: Node, outer: Outer, code: seq<Insn>)
    requires (n.And? || n.Or?) && Bare(Gen(a, n, outer)) <= code
    ensures var a0, a1, o := Open(a, n, outer), AfterJump(a, n, outer), InnerOf(n);
            && |Bare(a0)| == (if Parens(n, outer) then |Bare(a)| + 1 else |Bare(a)|)
            && |Bare(a1)| == |Bare(Gen(a0, n.a, o))| + 1
            && PairMarked(n, outer, code, |Bare(a)|, |Bare(Gen(a0, n.a, o))|, |Bare(Gen(a1, n.b, o))|, |Bare(Gen(a, n, outer))|)
  {
    PairPlaces(a, n, outer, code);
    PairStrings(a, n, outer);
    if Parens(n, outer) { WrappedNegated(a, n, outer, code); }
  }

  /** Where the parts of a pair are in a longer code. */
  lemma PairPlaces(a: Asm, n: Node, outer: Outer, code: seq<Insn>)
    requires (n.And? || n.Or?) && Bare(Gen(a, n, outer)) <= code
    ensures var a0, a1, o, w := Open(a, n, outer), AfterJump(a, n, outer), InnerOf(n), Parens(n, outer);
            var i, k, m := |Bare(a)|, |Bare(Gen(a0, n.a, o))|, |Bare(Gen(a1, n.b, o))|;
            && Bare(Gen(a0, n.a, o)) <= code && Bare(Gen(a1, n.b, o)) <= code
            && |Bare(a0)| == (if w then i + 1 else i) && i <= |Bare(a0)| < k < |Bare(a1)| == k + 1 < m
            && |Bare(Gen(a, n, outer))| == (if w then m + 1 else m)
            && code[k].op == JumpOf(n) && !Negates(code, k) && !Negates(code, k + 1)
            && (w ==> code[i] == Insn(PAREN, 0) && code[m] == Insn(PAREN, 1) && !Negates(code, m))
  {
    var o := InnerOf(n);
    assert AfterSecond(a, n, outer) == Gen(AfterJump(a, n, outer), n.b, o) && JumpOf(n) != NEGR;
    hide Bare, Gen, GenPair, Open, AfterJump, AfterSecond, Parens, InnerOf, JumpOf, Negates;
    var a0, a1, a2 := Open(a, n, outer), AfterJump(a, n, outer), AfterSecond(a, n, outer);
    BarePair(a, n, outer);
    BareGen(a0, n.a, o);
    BareGen(a1, n.b, o);
    BarePlaces(Bare(a), Bare(a0), Bare(Gen(a0, n.a, o)), Bare(a1), Bare(a2), Bare(Gen(a, n, outer)), code, Parens(n, outer), JumpOf(n));
  }

  lemma PairStrings(a: Asm, n: Node, outer: Outer)
    requires n.And? || n.Or?
    ensures Gen(Open(a, n, outer), n.a, InnerOf(n)).strs <= Gen(AfterJump(a, n, outer), n.b, InnerOf(n)).strs == Gen(a, n, outer).strs
  {
    PairShape(a, n, outer);
  }

  lemma BarePlaces(c: seq<Insn>, c0: seq<Insn>, c0': seq<Insn>, c1: seq<Insn>, c2: seq<Insn>, g: seq<Insn>,
          code: seq<Insn>, parens: bool, jump: Op)
    requires c0 == c + (if parens then [Insn(PAREN, 0)] else []) && g == c2 + (if parens then [Insn(PAREN, 1)] else [])
    requires c0 < c0' && c1 == c0' + [Insn(jump, 0)] && c1 < c2 && g <= code && jump != NEGR && c2[|c1|].op != NEGR
    ensures c0' <= code && c2 <= code && code[|c0'|].op == jump && !Negates(code, |c0'|) && !Negates(code, |c0'| + 1)
    ensures parens ==> code[|c|] == Insn(PAREN, 0) && code[|c2|] == Insn(PAREN, 1) && !Negates(code, |c2|)
  {
    assert code[..|c2|] == c2 && c2[..|c1|] == c1 && c1[..|c0|] == c0;
    assert code[|c1|] == c2[|c1|];
  }

  lemma ShowsPair(n: Node, outer: Outer, code: seq<Insn>, strs: seq<Text>, i: nat, sr: int, k: nat, sr1: int,
          m: nat, sr': int, j: nat)
    requires n.And? || n.Or?
    requires PairMarked(n, outer, code, i, k, m, j) && (Negates(code, j) ==> outer == UnderNot)
    requires Shows(code, strs, if Parens(n, outer) then i + 1 else i, sr, Decompiled(n.a, InnerOf(n)), k, sr1)
    requires Shows(code, strs, k + 1, sr1, Decompiled(n.b, InnerOf(n)), m, sr')
    ensures Shows(code, strs, i, sr, Bang(Negates(code, j)) + Decompiled(n, outer), j, sr')
  {
    hide Shows, Decompiled, Unparse, AfterClose;
    var t := if n.And? then TkAnd else TkOr;
    var pa, pb := Decompiled(n.a, InnerOf(n)), Decompiled(n.b, InnerOf(n));
    ShowsMiddle(code, strs, if Parens(n, outer) then i + 1 else i, sr, pa, k, sr1, t, pb, m, sr');
    DecompiledPair(n, outer, pa, t, pb);
    if Parens(n, outer) {
      ShowsWrapped(code, strs, i, sr, Bang(Negates(code, j)), pa + [t] + pb, m, sr');
    } else {
      assert [] + (pa + [t] + pb) == pa + [t] + pb;
    }
  }

  lemma DecompiledPair(n: Node, outer: Outer, pa: Tokens, t: Token, pb: Tokens)
    requires n.And? || n.Or?
    requires pa == Decompiled(n.a, InnerOf(n)) && pb == Decompiled(n.b, InnerOf(n)) && t == if n.And? then TkAnd else TkOr
    ensures Decompiled(n, outer) == if Parens(n, outer) then [TkOpen] + (pa + [t] + pb) + [TkClose] else pa + [t] + pb
  {
  }

  /** The two parts of a pair with the jump between them. */
  lemma ShowsMiddle(code: seq<Insn>, strs: seq<Text>, i: nat, sr: int, pa: Tokens, k: nat, sr1: int, t: Token,
          pb: Tokens, m: nat, sr': int)
    requires k < |code| && code[k].op == (if t == TkAnd then JMPF else JMPT) && (t == TkAnd || t == TkOr)
    requires !Negates(code, k + 1)
    requires Shows(code, strs, i, sr, pa, k, sr1) && Shows(code, strs, k + 1, sr1, pb, m, sr')
    ensures Shows(code, strs, i, sr, pa + [t] + pb, m, sr')
  {
    hide Shows;
    ShowsStep(code, strs, k, sr1);
    assert [] + [t] == [t];
    ShowsThen(code, strs, i, sr, pa, k, sr1, [t], k + 1, sr1);
    ShowsThen(code, strs, i, sr, pa + [t], k + 1, sr1, pb, m, sr');
  }

  lemma ShowsWrapped(code: seq<Insn>, strs: seq<Text>, i: nat, sr: int, bang: Tokens, ts: Tokens, m: nat, sr': int)
    requires i < m < |code| && code[i] == Insn(PAREN, 0) && code[m] == Insn(PAREN, 1)
    requires bang == Bang(Negated(code, i))
    requires Shows(code, strs, i + 1, sr, ts, m, sr')
    ensures Shows(code, strs, i, sr, bang + ([TkOpen] + ts + [TkClose]), m + 1, sr')
  {
    hide Shows, AfterClose;
    ShowsStep(code, strs, i, sr);
    ShowsStep(code, strs, m, sr');
    assert [] + [TkClose] == [TkClose];
    ShowsThen(code, strs, i, sr, bang + [TkOpen], i + 1, sr, ts, m, sr');
    ShowsThen(code, strs, i, sr, bang + [TkOpen] + ts, m, sr', [TkClose], m + 1, sr');
    assert bang + [TkOpen] + ts + [TkClose] == bang + ([TkOpen] + ts + [TkClose]);
  }

  /** The `(` of a pair finds the matching `)`, and looks at what comes after. */
  lemma WrappedNegated(a: Asm, n: Node, outer: Outer, code: seq<Insn>)
    requires (n.And? || n.Or?) && Parens(n, outer)
    requires Bare(Gen(a, n, outer)) <= code
    ensures |Bare(a)| < |code| && code[|Bare(a)|] == Insn(PAREN, 0)
    ensures AfterClose(code, |Bare(a)| + 1, 1) == |Bare(Gen(a, n, outer))|
    ensures Negated(code, |Bare(a)|) == Negates(code, |Bare(Gen(a, n, outer))|)
  {
    hide Bare, Gen, GenPair, Open, AfterJump, AfterClose;
    var a0, a1, o := Open(a, n, outer), AfterJump(a, n, outer), InnerOf(n);
    PairPlaces(a, n, outer, code);
    PairStrings(a, n, outer);
    var k, m := |Bare(Gen(a0, n.a, o))|, |Bare(Gen(a1, n.b, o))|;
    AfterCloseSkips(a0, n.a, o, code, 1);
    AfterCloseStep(code, k, k + 1, 1);
    AfterCloseSkips(a1, n.b, o, code, 1);
    AfterCloseLast(code, m);
  }

  // ----- When that is the printed tree

  predicate NoDoubleNots(n: Node) {
    match n
    case And(a, b) => NoDoubleNots(a) && NoDoubleNots(b)
    case Or(a, b) => NoDoubleNots(a) && NoDoubleNots(b)
    case Not(m) => !m.Not? && NoDoubleNots(m)
    case _ => true
  }

  lemma {:induction false} SettledNoDouble(n: Node)
    requires NotsSettled(n)
    ensures NoDoubleNots(n)
  {
    match n
    case And(a, b) => SettledNoDouble(a); SettledNoDouble(b);
    case Or(a, b) => SettledNoDouble(a); SettledNoDouble(b);
    case Not(m) => SettledNoDouble(m);
    case _ =>
  }

  /** What is printed never ends in a `!`, and decompiling never drops or adds
      a token. */
  lemma {:induction false} PrintEnds(n: Node, outer: Outer)
    ensures var p := Print(Server, n, outer); |p| > 0 && p[|p| - 1] != TkNot && |Decompiled(n, outer)| == |p|
  {
    match n
    case And(a, b) => PrintEnds(a, UnderAnd); PrintEnds(b, UnderAnd);
    case Or(a, b) => PrintEnds(a, UnderOr); PrintEnds(b, UnderOr);
    case Not(m) => PrintEnds(m, UnderNot);
    case _ =>
  }

  /** Decompiling prints the tree exactly when no NOT is right over a NOT. */
  lemma {:induction false} DecompiledIsPrint(n: Node, outer: Outer)
    ensures Decompiled(n, outer) == Print(Server, n, outer) <==> NoDoubleNots(n)
  {
    match n
    case And(a, b) =>
      DecompiledIsPrint(a, UnderAnd);
      DecompiledIsPrint(b, UnderAnd);
      SamePair(n, outer, UnderAnd, TkAnd);
    case Or(a, b) =>
      DecompiledIsPrint(a, UnderOr);
      DecompiledIsPrint(b, UnderOr);
      SamePair(n, outer, UnderOr, TkOr);
    case Not(m) =>
      PrintEnds(n, outer);
      if m.Not? {
        var d := Decompiled(n, outer);
        assert d[|d| - 1] == TkNot;
      } else {
        DecompiledIsPrint(m, UnderNot);
        assert Decompiled(n, outer)[1..] == Decompiled(m, UnderNot);
        assert Print(Server, n, outer)[1..] == Print(Server, m, UnderNot);
      }
    case _ =>
  }

  lemma SamePair(n: Node, outer: Outer, o: Outer, t: Token)
    requires if t == TkAnd then n.And? && o == UnderAnd else n.Or? && t == TkOr && o == UnderOr
    ensures Decompiled(n, outer) == Print(Server, n, outer) <==>
              Decompiled(n.a, o) == Print(Server, n.a, o) && Decompiled(n.b, o) == Print(Server, n.b, o)
  {
    PrintEnds(n.a, o);
    var da, db, pa, pb := Decompiled(n.a, o), Decompiled(n.b, o), Print(Server, n.a, o), Print(Server, n.b, o);
    var d, p := da + [t] + db, pa + [t] + pb;
    assert Decompiled(n, outer) == Wrap(Server, n, outer, d) && Print(Server, n, outer) == Wrap(Server, n, outer, p);
    hide Decompiled, Print;
    UnwrapSame(n, outer, d, p);
    assert d[..|da|] == da && d[|da| + 1..] == db && p[..|pa|] == pa && p[|pa| + 1..] == pb;
  }

  lemma UnwrapSame(n: Node, outer: Outer, ts: Tokens, us: Tokens)
    ensures Wrap(Server, n, outer, ts) == Wrap(Server, n, outer, us) <==> ts == us
  {
    if Wrap(Server, n, outer, ts) == Wrap(Server, n, outer, us) && Wrapped(Server, n, outer) {
      var w, v := [TkOpen] + ts + [TkClose], [TkOpen] + us + [TkClose];
      assert w[1..|w| - 1] == ts && v[1..|v| - 1] == us;
    }
  }

  /** Every `(` from `i` on has its `)`, with something after it. */
  predicate ParensMatched(code: seq<Insn>, i: nat, j: nat) {
    forall k :: i <= k < j && k < |code| && code[k] == Insn(PAREN, 0) ==> AfterClose(code, k + 1, 1) < |code|
  }

  lemma {:induction false} GenParensMatched(a: Asm, n: Node, outer: Outer, code: seq<Insn>)
    requires Bare(Gen(a, n, outer)) < code
    ensures ParensMatched(code, |Bare(a)|, |Bare(Gen(a, n, outer))|)
    decreases n, 1
  {
    if n.And? || n.Or? {
      GenParensMatchedPair(a, n, outer, code);
    } else if n.Not? {
      BareAppend(Gen(a, n.n, UnderNot), NEGR, 0);
      hide Bare, AfterClose;
      GenParensMatched(a, n.n, UnderNot, code);
    } else {
      BareAtom(a, n);
      hide Bare, AfterClose, FindString, GenAtom;
      assert forall k :: |Bare(a)| <= k < |Bare(GenAtom(a, n))| ==> code[k] == AtomInsns(a, n)[k - |Bare(a)|];
    }
  }

  lemma {:induction false} GenParensMatchedPair(a: Asm, n: Node, outer: Outer, code: seq<Insn>)
    requires n.And? || n.Or?
    requires Bare(Gen(a, n, outer)) < code
    ensures ParensMatched(code, |Bare(a)|, |Bare(Gen(a, n, outer))|)
    decreases n, 0
  {
    var a0, a1, o := Open(a, n, outer), AfterJump(a, n, outer), InnerOf(n);
    PairPlaces(a, n, outer, code);
    PairStrings(a, n, outer);
    if Parens(n, outer) { WrappedNegated(a, n, outer, code); }
    ShorterCode(Gen(a0, n.a, o), Gen(a1, n.b, o), Gen(a, n, outer), code);
    hide *;
    GenParensMatched(a0, n.a, o, code);
    GenParensMatched(a1, n.b, o, code);
    ParensJoin(code, |Bare(a)|, |Bare(a0)|, |Bare(Gen(a0, n.a, o))|, |Bare(Gen(a1, n.b, o))|, |Bare(Gen(a, n, outer))|);
  }

  lemma ShorterCode(a: Asm, b: Asm, c: Asm, code: seq<Insn>)
    requires Bare(a) <= code && Bare(b) <= code && Bare(c) < code && |Bare(a)| < |Bare(b)| <= |Bare(c)|
    ensures Bare(a) < code && Bare(b) < code
  {
  }

  lemma ParensJoin(code: seq<Insn>, i: nat, i0: nat, k: nat, m: nat, j: nat)
    requires i <= i0 <= i + 1 && k < m <= j <= m + 1 && j < |code|
    requires ParensMatched(code, i0, k) && ParensMatched(code, k + 1, m) && code[k].op != PAREN
    requires i < i0 ==> AfterClose(code, i + 1, 1) == j
    requires m < j ==> code[m].arg == 1
    ensures ParensMatched(code, i, j)
  {
  }

  lemma AfterCloseLast(code: seq<Insn>, i: nat)
    requires i < |code| && code[i] == Insn(PAREN, 1)
    ensures AfterClose(code, i, 1) == i + 1
  {
  }
}
