/** Printing a compiled lock, reading it back and compiling it again: when that
    gives the very same bytes. */
module LockReload {
  import opened Bytes
  import opened LockTree
  import opened LockAsm
  import opened JumpThreading
  import opened LockBytecode
  import opened LockCompiler
  import opened LockGrammar
  import opened LockUnparse
  import opened LockLanding

  // ----- The bytes of a lock, from its tree

  /** The strings there are after those of `n`. */
  function StrsAfter(strs: seq<Text>, n: Node): seq<Text>
    decreases n
  {
    match n
    case And(a, b) => StrsAfter(StrsAfter(strs, a), b)
    case Or(a, b) => StrsAfter(StrsAfter(strs, a), b)
    case Not(m) => StrsAfter(strs, m)
    case _ => GenAtom(Asm([], strs, 0), n).strs
  }

  /** What comes after some code: `rest` instructions, and where a JMPT (JMPF)
      that gets there goes on to, as the number of instructions left there. */
  datatype Exits = Exits(rest: nat, kt: nat, kf: nat)

  /** A jump that gets to the end of a part in parentheses stops there. */
  function OfSecond(p: bool, e: Exits): Exits {
    if p then Exits(e.rest + 1, e.rest + 1, e.rest + 1) else e
  }

  /** What comes after the first part, when the second one has `len` instructions:
      one of the two jumps goes on into it, and the other one skips it. */
  function OfFirst(or: bool, p: bool, e: Exits, len: nat): Exits {
    var next := OfSecond(p, e).rest + len;
    Exits(next + 1, if or then e.kt else next, if or then next else e.kf)
  }

  function JumpLaid(or: bool, e: Exits): Insn {
    if or then Insn(JMPT, e.kt) else Insn(JMPF, e.kf)
  }

  /** The instructions of `n` with where each jump ends up. */
  function Laid(strs: seq<Text>, n: Node, outer: Outer, e: Exits): seq<Insn>
    decreases n, 1
  {
    match n
    case And(_, _) => LaidPair(strs, n, outer, e)
    case Or(_, _) => LaidPair(strs, n, outer, e)
    case Not(m) => Laid(strs, m, UnderNot, OfSecond(true, e)) + [Insn(NEGR, 0)]
    case _ => AtomInsns(Asm([], strs, 0), n)
  }

  function LaidPair(strs: seq<Text>, n: Node, outer: Outer, e: Exits): seq<Insn>
    requires n.And? || n.Or?
    decreases n, 0
  {
    var p, o := Parens(n, outer), InnerOf(n);
    var second := Laid(StrsAfter(strs, n.a), n.b, o, OfSecond(p, e));
    PairLaid(p, Laid(strs, n.a, o, OfFirst(n.Or?, p, e, |second|)), JumpLaid(n.Or?, e), second)
  }

  function PairLaid(p: bool, first: seq<Insn>, jump: Insn, second: seq<Insn>): seq<Insn> {
    (if p then [Insn(PAREN, 0)] else []) + first + [jump] + second + (if p then [Insn(PAREN, 1)] else [])
  }

  lemma AtomAnywhere(a: Asm, n: Node)
    requires IsAtom(n)
    ensures AtomInsns(a, n) == AtomInsns(Asm([], a.strs, 0), n) && GenAtom(a, n).strs == GenAtom(Asm([], a.strs, 0), n).strs
  {
    hide FindString;
  }

  lemma {:induction false} GenStrsAfter(a: Asm, n: Node, outer: Outer)
    ensures Gen(a, n, outer).strs == StrsAfter(a.strs, n)
    decreases n
  {
    GenIs(a, n, outer);
    if n.And? || n.Or? {
      PairSteps(a, n, outer);
      GenStrsAfter(Open(a, n, outer), n.a, InnerOf(n));
      GenStrsAfter(AfterJump(a, n, outer), n.b, InnerOf(n));
    } else if n.Not? {
      GenStrsAfter(a, n.n, UnderNot);
    } else {
      AtomAnywhere(a, n);
    }
  }

  /** Code starts with an instruction that is neither a label nor a jump. */
  lemma {:induction false} GenFirst(a: Asm, n: Node, outer: Outer)
    ensures var g := Gen(a, n, outer).insns;
            |a.insns| < |g| && a.insns <= g && g[|a.insns|].op != LABEL && !IsJump(g[|a.insns|].op)
    decreases n
  {
    GenExtends(a, n, outer);
    GenIs(a, n, outer);
    if n.And? || n.Or? {
      var a0 := Open(a, n, outer);
      PairSteps(a, n, outer);
      GenFirst(a0, n.a, InnerOf(n));
      GenExtends(AfterJump(a, n, outer), n.b, InnerOf(n));
    } else if n.Not? {
      GenFirst(a, n.n, UnderNot);
    } else {
      AtomShape(a, n);
      AtomPlain(a, n);
      hide AtomInsns, GenAtom;
    }
  }

  /** What comes after place `g`. */
  function ExitsAt(code: seq<Insn>, g: nat): Exits {
    Exits(Real(code, g), Lands(code, g, JMPT), Lands(code, g, JMPF))
  }

  /** What the code of `n`, in place, is laid out as. */
  lemma {:induction false} GenLaid(a: Asm, n: Node, outer: Outer, code: seq<Insn>)
    requires Gen(a, n, outer).insns <= code && UniqueLabels(code)
    ensures var g := |Gen(a, n, outer).insns|;
            Landed(code, |a.insns|) == Laid(a.strs, n, outer, ExitsAt(code, g)) + Landed(code, g)
    decreases n, 1
  {
    hide Gen, GenPair, GenAtom, Lands, Landed, Laid, LaidPair, UniqueLabels, AtomInsns, FindString, Real;
    var e := ExitsAt(code, |Gen(a, n, outer).insns|);
    GenIs(a, n, outer);
    LaidIs(a.strs, n, outer, e);
    if n.And? || n.Or? {
      GenLaidPair(a, n, outer, code);
    } else if n.Not? {
      var g := |Gen(a, n.n, UnderNot).insns|;
      assert code[g] == Insn(NEGR, 0);
      LandedPlain(code, g);
      ExitsPlain(code, g);
      GenLaid(a, n.n, UnderNot, code);
    } else {
      GenLaidAtom(a, n, code);
    }
  }

  /** A jump that gets to a plain instruction stops there. */
  lemma ExitsPlain(code: seq<Insn>, g: nat)
    requires g < |code| && code[g].op != LABEL && !IsJump(code[g].op)
    ensures ExitsAt(code, g) == OfSecond(true, ExitsAt(code, g + 1))
  {
    LandsStep(code, g, JMPT);
    LandsStep(code, g, JMPF);
    hide Lands;
  }

  lemma LaidIs(strs: seq<Text>, n: Node, outer: Outer, e: Exits)
    ensures n.Not? ==> Laid(strs, n, outer, e) == Laid(strs, n.n, UnderNot, OfSecond(true, e)) + [Insn(NEGR, 0)]
    ensures n.And? || n.Or? ==> Laid(strs, n, outer, e) == LaidPair(strs, n, outer, e)
    ensures IsAtom(n) ==> Laid(strs, n, outer, e) == AtomInsns(Asm([], strs, 0), n)
  {
    hide LaidPair, AtomInsns;
  }

  /** A stretch of plain instructions. */
  lemma {:induction false} LandedStretch(code: seq<Insn>, i: nat, j: nat)
    requires i <= j <= |code| && forall k :: i <= k < j ==> code[k].op != LABEL && !IsJump(code[k].op)
    ensures Landed(code, i) == code[i..j] + Landed(code, j)
    decreases j - i
  {
    hide Landed, IsJump;
    if i == j {
      assert code[i..j] + Landed(code, j) == Landed(code, j);
    } else {
      LandedPlain(code, i);
      LandedStretch(code, i + 1, j);
      SliceThen(code, i, j, Landed(code, j));
    }
  }

  lemma SliceThen(s: seq<Insn>, i: nat, j: nat, more: seq<Insn>)
    requires i < j <= |s|
    ensures s[i..j] + more == [s[i]] + (s[i + 1..j] + more)
  {
  }

  lemma GenLaidAtom(a: Asm, n: Node, code: seq<Insn>)
    requires IsAtom(n) && GenAtom(a, n).insns <= code
    ensures Landed(code, |a.insns|) == AtomInsns(Asm([], a.strs, 0), n) + Landed(code, |GenAtom(a, n).insns|)
  {
    hide GenAtom, AtomInsns, Landed, UsesS, IsJump;
    AtomAnywhere(a, n);
    AtomShape(a, n);
    var i, g := |a.insns|, AtomInsns(a, n);
    SliceOf(a.insns, g, code);
    forall k | i <= k < i + |g| ensures code[k].op != LABEL && !IsJump(code[k].op) {
      AtomPlain(a, n);
      assert code[k] == g[k - i];
    }
    LandedStretch(code, i, i + |g|);
  }

  lemma SliceOf(a: seq<Insn>, g: seq<Insn>, code: seq<Insn>)
    requires a + g <= code
    ensures |a| + |g| <= |code| && code[|a|..|a| + |g|] == g
    ensures forall k :: |a| <= k < |a| + |g| ==> code[k] == g[k - |a|]
  {
    assert code[|a|..|a| + |g|] == (a + g)[|a|..];
  }

  lemma LandedPlain(code: seq<Insn>, i: nat)
    requires i < |code| && code[i].op != LABEL && !IsJump(code[i].op)
    ensures Landed(code, i) == [code[i]] + Landed(code, i + 1)
  {
    LandedStep(code, i);
    hide Landed, Lands;
  }

  /** A label is passed. */
  lemma LabelPassed(code: seq<Insn>, i: nat)
    requires i < |code| && code[i].op == LABEL
    ensures ExitsAt(code, i) == ExitsAt(code, i + 1) && Landed(code, i) == Landed(code, i + 1)
  {
    LandsStep(code, i, JMPT);
    LandsStep(code, i, JMPF);
    LandedStep(code, i);
    hide Lands, Landed;
  }

  /** What follows the second part of a pair: perhaps a parenthesis, and the
      label. */
  lemma PairEnds(code: seq<Insn>, m: nat, g: nat, p: bool)
    requires m < g <= |code| && g == m + (if p then 2 else 1) && code[g - 1].op == LABEL && (p ==> code[m] == Insn(PAREN, 1))
    ensures ExitsAt(code, m) == OfSecond(p, ExitsAt(code, g)) && ExitsAt(code, g - 1) == ExitsAt(code, g)
    ensures Landed(code, m) == (if p then [Insn(PAREN, 1)] else []) + Landed(code, g)
  {
    hide ExitsAt, Landed;
    LabelPassed(code, g - 1);
    if p {
      LandedPlain(code, m);
      ExitsPlain(code, m);
    }
  }

  /** The jump at `j`, with its label at `k`, and a plain instruction behind it. */
  lemma PairJump(code: seq<Insn>, j: nat, k: nat, or: bool)
    requires j + 1 < |code| && j < k < |code| && UniqueLabels(code) && code[k] == Insn(LABEL, code[j].arg)
    requires code[j].op == (if or then JMPT else JMPF) && code[j + 1].op != LABEL && !IsJump(code[j + 1].op)
    ensures var e, next := ExitsAt(code, k), Real(code, j + 1);
            && ExitsAt(code, j) == Exits(next + 1, if or then e.kt else next, if or then next else e.kf)
            && Landed(code, j) == [JumpLaid(or, e)] + Landed(code, j + 1)
  {
    LabelPosUnique(code, k);
    LandsStep(code, j, JMPT);
    LandsStep(code, j, JMPF);
    LandsStep(code, j + 1, if or then JMPF else JMPT);
    LandedStep(code, j);
    hide Lands, Landed, LabelPos, UniqueLabels;
  }

  lemma {:induction false} GenLaidPair(a: Asm, n: Node, outer: Outer, code: seq<Insn>)
    requires n.And? || n.Or?
    requires Gen(a, n, outer).insns <= code && UniqueLabels(code)
    ensures var g := |Gen(a, n, outer).insns|;
            Landed(code, |a.insns|) == LaidPair(a.strs, n, outer, ExitsAt(code, g)) + Landed(code, g)
    decreases n, 0
  {
    var a0, a1, o := Open(a, n, outer), AfterJump(a, n, outer), InnerOf(n);
    hide *;
    PairPoints(a, n, outer, code);
    var g, j, m := |Gen(a, n, outer).insns|, |Gen(a0, n.a, o).insns|, |Gen(a1, n.b, o).insns|;
    PairLands(n.Or?, Parens(n, outer), code, |a.insns|, |a0.insns|, j, m, g);
    GenLaid(a0, n.a, o, code);
    GenLaid(a1, n.b, o, code);
    PairGlue(a.strs, n, outer, code, |a.insns|, |a0.insns|, j, m, g);
  }

  /** The places where a pair, its first part, its jump and the end of its second
      part are in some code, and where all of it ends. */
  predicate PairIn(or: bool, p: bool, code: seq<Insn>, i: nat, i0: nat, j: nat, m: nat, g: nat) {
    && i0 == i + (if p then 1 else 0) && i0 <= j < m < g <= |code| && g == m + (if p then 2 else 1)
    && (p ==> code[i] == Insn(PAREN, 0) && code[m] == Insn(PAREN, 1))
    && code[j].op == (if or then JMPT else JMPF) && code[g - 1] == Insn(LABEL, code[j].arg)
    && code[j + 1].op != LABEL && !IsJump(code[j + 1].op)
  }

  lemma PairPoints(a: Asm, n: Node, outer: Outer, code: seq<Insn>)
    requires n.And? || n.Or?
    requires Gen(a, n, outer).insns <= code
    ensures var a0, a1, o, p := Open(a, n, outer), AfterJump(a, n, outer), InnerOf(n), Parens(n, outer);
            var g, j, m := |Gen(a, n, outer).insns|, |Gen(a0, n.a, o).insns|, |Gen(a1, n.b, o).insns|;
            && a0.strs == a.strs && a1.strs == StrsAfter(a.strs, n.a) && |a1.insns| == j + 1
            && Gen(a0, n.a, o).insns <= code && Gen(a1, n.b, o).insns <= code
            && PairIn(n.Or?, p, code, |a.insns|, |a0.insns|, j, m, g)
  {
    hide Gen, GenPair, Open, AfterJump, AfterSecond, StrsAfter, IsJump, Parens, InnerOf;
    SecondIs(a, n, outer);
    PairInCode(a, n, outer, code, Gen(a, n, outer).strs);
    PairStrs(a, n, outer);
    GenFirst(AfterJump(a, n, outer), n.b, InnerOf(n));
  }

  lemma PairLands(or: bool, p: bool, code: seq<Insn>, i: nat, i0: nat, j: nat, m: nat, g: nat)
    requires PairIn(or, p, code, i, i0, j, m, g) && UniqueLabels(code)
    ensures PairAt(or, p, code, i, i0, j, m, g)
  {
    hide Lands, Landed, UniqueLabels;
    PairEnds(code, m, g, p);
    PairJump(code, j, g - 1, or);
    if p { LandedPlain(code, i); }
  }

  lemma SecondIs(a: Asm, n: Node, outer: Outer)
    requires n.And? || n.Or?
    ensures AfterSecond(a, n, outer) == Gen(AfterJump(a, n, outer), n.b, InnerOf(n))
  {
    hide Gen, AfterJump;
  }

  lemma PairStrs(a: Asm, n: Node, outer: Outer)
    requires n.And? || n.Or?
    ensures Open(a, n, outer).strs == a.strs && AfterJump(a, n, outer).strs == StrsAfter(a.strs, n.a)
  {
    PairSteps(a, n, outer);
    GenStrsAfter(Open(a, n, outer), n.a, InnerOf(n));
    hide Gen, StrsAfter;
  }

  /** How what is at the beginning of a pair, at its first part, at its jump, behind
      its second part and behind all of it goes together. */
  predicate PairAt(or: bool, p: bool, code: seq<Insn>, i: nat, i0: nat, j: nat, m: nat, g: nat) {
    var e, next := ExitsAt(code, g), Real(code, j + 1);
    && Landed(code, i) == (if p then [Insn(PAREN, 0)] else []) + Landed(code, i0)
    && ExitsAt(code, j) == Exits(next + 1, if or then e.kt else next, if or then next else e.kf)
    && Landed(code, j) == [JumpLaid(or, e)] + Landed(code, j + 1)
    && ExitsAt(code, m) == OfSecond(p, e) && Landed(code, m) == (if p then [Insn(PAREN, 1)] else []) + Landed(code, g)
  }

  /** The pieces of a pair put together. */
  lemma PairGlue(strs: seq<Text>, n: Node, outer: Outer, code: seq<Insn>, i: nat, i0: nat, j: nat, m: nat, g: nat)
    requires (n.And? || n.Or?) && PairAt(n.Or?, Parens(n, outer), code, i, i0, j, m, g)
    requires Landed(code, i0) == Laid(strs, n.a, InnerOf(n), ExitsAt(code, j)) + Landed(code, j)
    requires Landed(code, j + 1) == Laid(StrsAfter(strs, n.a), n.b, InnerOf(n), ExitsAt(code, m)) + Landed(code, m)
    ensures Landed(code, i) == LaidPair(strs, n, outer, ExitsAt(code, g)) + Landed(code, g)
  {
    hide Lands, Landed, Laid, StrsAfter, Real, Parens, InnerOf, PairLaid;
    var p, o, e := Parens(n, outer), InnerOf(n), ExitsAt(code, g);
    var second := Laid(StrsAfter(strs, n.a), n.b, o, OfSecond(p, e));
    var first := Laid(strs, n.a, o, ExitsAt(code, j));
    assert Real(code, j + 1) == |second| + Real(code, m);
    assert ExitsAt(code, j) == OfFirst(n.Or?, p, e, |second|);
    PairLaidThen(p, first, JumpLaid(n.Or?, e), second, Landed(code, g));
  }

  lemma PairLaidThen(p: bool, first: seq<Insn>, jump: Insn, second: seq<Insn>, more: seq<Insn>)
    ensures PairLaid(p, first, jump, second) + more ==
            (if p then [Insn(PAREN, 0)] else []) + (first + ([jump] + (second + ((if p then [Insn(PAREN, 1)] else []) + more))))
  {
  }

  /** After the code of a whole lock there is a RET. */
  const END := Exits(1, 1, 1)

  /** The bytes of a tree that is not rewritten first. */
  function TreeBytes(n: Node): seq<Byte> {
    LandedBytes(Laid([], n, Alone, END) + [Insn(RET, 0)], StrsAfter([], n))
  }

  lemma GenerateEnds(n: Node)
    ensures var a, g := Generate(n), Gen(Asm([], [], 0), n, Alone);
            a.insns == g.insns + [Insn(RET, 0)] && a.strs == g.strs && UniqueLabels(a.insns)
  {
    GenerateWellFormed(n);
    hide Gen, UniqueLabels, Rounded, JumpsResolved;
  }

  lemma GeneratedLanded(n: Node)
    ensures Landed(Generate(n).insns, 0) == Laid([], n, Alone, END) + [Insn(RET, 0)]
    ensures Generate(n).strs == StrsAfter([], n)
  {
    hide Gen, Generate, Laid, UniqueLabels, StrsAfter, Landed, Lands;
    var a, code := Asm([], [], 0), Generate(n).insns;
    var g := |Gen(a, n, Alone).insns|;
    GenerateEnds(n);
    GenStrsAfter(a, n, Alone);
    GenLaid(a, n, Alone, code);
    LastLanded(code, g);
  }

  lemma LastLanded(code: seq<Insn>, g: nat)
    requires |code| == g + 1 && code[g] == Insn(RET, 0)
    ensures ExitsAt(code, g) == END && Landed(code, g) == [Insn(RET, 0)]
  {
    LandedPlain(code, g);
    ExitsPlain(code, g);
    LandedEnd(code, g + 1);
    hide Landed, Lands;
  }

  /** The bytes of a compiled lock depend on nothing but where jumps end up. */
  lemma CompileIsTreeBytes(n: Node)
    ensures Compile(n) == TreeBytes(Optimize(n))
  {
    var a := Generate(Optimize(n));
    GenerateThreadable(Optimize(n));
    GeneratedLanded(Optimize(n));
    ThreadLanded(a.insns, a.labels, 0);
    ThreadFinishes(a.insns, a.labels, 0);
    hide Generate, Thread, Landed, Laid, StrsAfter, Emit, LandedBytes, Optimize;
    ThreadableMeans(Assemble(n).insns, Assemble(n).labels);
    EmitLanded(Assemble(n).insns, Assemble(n).strs);
  }

  lemma ThreadableMeans(code: seq<Insn>, labels: nat)
    requires Threadable(code, labels)
    ensures UniqueLabels(code) && JumpsResolved(code, 0)
  {
  }

  // ----- Regrouping chains

  function Pair(or: bool, a: Node, b: Node): Node {
    if or then Or(a, b) else And(a, b)
  }

  function JoinPair(or: bool, a: Node, b: Node): Node {
    if or then JoinOr(a, b) else JoinAnd(a, b)
  }

  predicate IsPair(or: bool, n: Node) {
    if or then n.Or? else n.And?
  }

  function Side(or: bool): Outer {
    if or then UnderOr else UnderAnd
  }

  /** What an AND or OR is laid out as, without and with parentheses. */
  lemma LaidPairIs(strs: seq<Text>, or: bool, a: Node, b: Node, outer: Outer, e: Exits)
    ensures var p, o := Parens(Pair(or, a, b), outer), Side(or);
            var second := Laid(StrsAfter(strs, a), b, o, OfSecond(p, e));
            Laid(strs, Pair(or, a, b), outer, e) == PairLaid(p, Laid(strs, a, o, OfFirst(or, p, e, |second|)), JumpLaid(or, e), second)
  {
    LaidIs(strs, Pair(or, a, b), outer, e);
    hide Laid, PairLaid, StrsAfter, OfFirst, OfSecond;
  }

  lemma SideOpen(or: bool, a: Node, b: Node)
    ensures !Parens(Pair(or, a, b), Side(or))
  {
  }

  /** Unless there are parentheses around it, a chain of three is laid out the
      same either way. */
  lemma LaidRotate(strs: seq<Text>, or: bool, x: Node, y: Node, z: Node, outer: Outer, e: Exits)
    requires !Parens(Pair(or, x, y), outer)
    ensures Laid(strs, Pair(or, Pair(or, x, y), z), outer, e) == Laid(strs, Pair(or, x, Pair(or, y, z)), outer, e)
  {
    var o, s1 := Side(or), StrsAfter(strs, x);
    var s2 := StrsAfter(s1, y);
    PairStrsAfter(strs, or, x, y);
    ParensOfKind(or, x, y, Pair(or, x, y), z, outer);
    ParensOfKind(or, x, y, x, Pair(or, y, z), outer);
    SideOpen(or, x, y);
    SideOpen(or, y, z);
    hide Laid, StrsAfter, Parens, Side, Pair, PairLaid;
    var third := Laid(s2, z, o, e);
    var second := Laid(s1, y, o, OfFirst(or, false, e, |third|));
    var first := Laid(strs, x, o, OfFirst(or, false, e, |second| + 1 + |third|));
    LaidPairIs(strs, or, Pair(or, x, y), z, outer, e);
    LaidPairIs(strs, or, x, y, o, OfFirst(or, false, e, |third|));
    LaidPairIs(strs, or, x, Pair(or, y, z), outer, e);
    LaidPairIs(s1, or, y, z, o, e);
    PairsAssociate(first, JumpLaid(or, e), second, third);
  }

  lemma PairStrsAfter(strs: seq<Text>, or: bool, a: Node, b: Node)
    ensures StrsAfter(strs, Pair(or, a, b)) == StrsAfter(StrsAfter(strs, a), b)
  {
  }

  lemma ParensOfKind(or: bool, a: Node, b: Node, c: Node, d: Node, outer: Outer)
    ensures Parens(Pair(or, a, b), outer) == Parens(Pair(or, c, d), outer)
  {
  }

  lemma PairsAssociate(first: seq<Insn>, jump: Insn, second: seq<Insn>, third: seq<Insn>)
    ensures PairLaid(false, PairLaid(false, first, jump, second), jump, third) == PairLaid(false, first, jump, PairLaid(false, second, jump, third))
    ensures |PairLaid(false, second, jump, third)| == |second| + 1 + |third|
  {
  }

  /** Joining gives the same as a pair there. */
  lemma {:induction false} LaidJoin(strs: seq<Text>, or: bool, x: Node, y: Node, outer: Outer, e: Exits)
    requires IsPair(or, x) ==> !Parens(Pair(or, x, y), outer)
    ensures Laid(strs, JoinPair(or, x, y), outer, e) == Laid(strs, Pair(or, x, y), outer, e)
    decreases x
  {
    if IsPair(or, x) {
      var tail := JoinPair(or, x.b, y);
      assert JoinPair(or, x, y) == Pair(or, x.a, tail) && x == Pair(or, x.a, x.b);
      ParensOfKind(or, x.a, tail, x.a, Pair(or, x.b, y), outer);
      ParensOfKind(or, x, y, x.a, tail, outer);
      ParensOfKind(or, x, y, x.a, x.b, outer);
      SideOpen(or, x.b, y);
      LaidJoin(StrsAfter(strs, x.a), or, x.b, y, Side(or), e);
      hide Laid, StrsAfter, Parens, Side, JoinPair, PairLaid, OfFirst;
      LaidPairIs(strs, or, x.a, tail, outer, e);
      LaidPairIs(strs, or, x.a, Pair(or, x.b, y), outer, e);
      LaidRotate(strs, or, x.a, x.b, y, outer, e);
    }
  }

  /** The number of instructions of a tree. */
  function InsnCount(n: Node, outer: Outer): nat
    decreases n
  {
    match n
    case And(a, b) => InsnCount(a, UnderAnd) + 1 + InsnCount(b, UnderAnd) + (if Parens(n, outer) then 2 else 0)
    case Or(a, b) => InsnCount(a, UnderOr) + 1 + InsnCount(b, UnderOr) + (if Parens(n, outer) then 2 else 0)
    case Not(m) => InsnCount(m, UnderNot) + 1
    case Ind(_, _) => 2
    case Atr(_, _) => 2
    case Eval(_, _) => 2
    case _ => 1
  }

  lemma PairCount(or: bool, a: Node, b: Node, outer: Outer)
    ensures InsnCount(Pair(or, a, b), outer) ==
            InsnCount(a, Side(or)) + 1 + InsnCount(b, Side(or)) + (if Parens(Pair(or, a, b), outer) then 2 else 0)
  {
  }

  lemma {:induction false} LaidCount(strs: seq<Text>, n: Node, outer: Outer, e: Exits)
    ensures |Laid(strs, n, outer, e)| == InsnCount(n, outer)
    decreases n, 1
  {
    match n
    case And(a, b) => SidesLaid(strs, false, a, b, outer, e); PairCount(false, a, b, outer);
    case Or(a, b) => SidesLaid(strs, true, a, b, outer, e); PairCount(true, a, b, outer);
    case Not(m) => LaidCount(strs, m, UnderNot, OfSecond(true, e));
    case _ => AtomPlain(Asm([], strs, 0), n);
  }

  /** What the two sides of a pair are laid out as. */
  function SecondLaid(strs: seq<Text>, or: bool, a: Node, b: Node, outer: Outer, e: Exits): seq<Insn> {
    Laid(StrsAfter(strs, a), b, Side(or), OfSecond(Parens(Pair(or, a, b), outer), e))
  }

  function FirstLaid(strs: seq<Text>, or: bool, a: Node, b: Node, outer: Outer, e: Exits): seq<Insn> {
    Laid(strs, a, Side(or), OfFirst(or, Parens(Pair(or, a, b), outer), e, InsnCount(b, Side(or))))
  }

  lemma {:induction false} SidesLaid(strs: seq<Text>, or: bool, a: Node, b: Node, outer: Outer, e: Exits)
    ensures var first, second := FirstLaid(strs, or, a, b, outer, e), SecondLaid(strs, or, a, b, outer, e);
            && Laid(strs, Pair(or, a, b), outer, e) == PairLaid(Parens(Pair(or, a, b), outer), first, JumpLaid(or, e), second)
            && |first| == InsnCount(a, Side(or)) && |second| == InsnCount(b, Side(or))
            && |Laid(strs, Pair(or, a, b), outer, e)| == |first| + 1 + |second| + if Parens(Pair(or, a, b), outer) then 2 else 0
    decreases Pair(or, a, b), 0
  {
    var p := Parens(Pair(or, a, b), outer);
    LaidPairIs(strs, or, a, b, outer, e);
    LaidCount(StrsAfter(strs, a), b, Side(or), OfSecond(p, e));
    LaidCount(strs, a, Side(or), OfFirst(or, p, e, InsnCount(b, Side(or))));
    hide Laid, InsnCount, StrsAfter, Parens, Side, OfFirst, OfSecond, JumpLaid;
  }

  lemma {:induction false} JoinCount(or: bool, x: Node, y: Node, outer: Outer)
    ensures InsnCount(JoinPair(or, x, y), outer) == InsnCount(Pair(or, x, y), outer)
    decreases x
  {
    if IsPair(or, x) { JoinCount(or, x.b, y, Side(or)); }
  }

  lemma {:induction false} NestCount(n: Node, outer: Outer)
    ensures InsnCount(Nest(Server, n), outer) == InsnCount(n, outer)
    decreases n
  {
    match n
    case And(a, b) =>
      NestCount(a, UnderAnd);
      NestCount(b, UnderAnd);
      JoinCount(false, Nest(Server, a), Nest(Server, b), outer);
    case Or(a, b) =>
      NestCount(a, UnderOr);
      NestCount(b, UnderOr);
      JoinCount(true, Nest(Server, a), Nest(Server, b), outer);
    case Not(m) => NestCount(m, UnderNot);
    case _ =>
  }

  lemma {:induction false} JoinStrs(strs: seq<Text>, or: bool, x: Node, y: Node)
    ensures StrsAfter(strs, JoinPair(or, x, y)) == StrsAfter(StrsAfter(strs, x), y)
    decreases x
  {
    if IsPair(or, x) { JoinStrs(StrsAfter(strs, x.a), or, x.b, y); }
  }

  lemma {:induction false} NestStrs(strs: seq<Text>, n: Node)
    ensures StrsAfter(strs, Nest(Server, n)) == StrsAfter(strs, n)
    decreases n
  {
    match n
    case And(a, b) =>
      NestStrs(strs, a);
      NestStrs(StrsAfter(strs, a), b);
      JoinStrs(strs, false, Nest(Server, a), Nest(Server, b));
    case Or(a, b) =>
      NestStrs(strs, a);
      NestStrs(StrsAfter(strs, a), b);
      JoinStrs(strs, true, Nest(Server, a), Nest(Server, b));
    case Not(m) => NestStrs(strs, m);
    case _ =>
  }

  /** No chain that gets parentheses starts with a group of its own kind. */
  predicate Grouped(n: Node, outer: Outer)
    decreases n
  {
    match n
    case And(a, b) => (Parens(n, outer) ==> !a.And?) && Grouped(a, UnderAnd) && Grouped(b, UnderAnd)
    case Or(a, b) => (Parens(n, outer) ==> !a.Or?) && Grouped(a, UnderOr) && Grouped(b, UnderOr)
    case Not(m) => Grouped(m, UnderNot)
    case _ => true
  }

  lemma GroupedPair(or: bool, a: Node, b: Node, outer: Outer)
    ensures Grouped(Pair(or, a, b), outer) <==>
            (Parens(Pair(or, a, b), outer) ==> !IsPair(or, a)) && Grouped(a, Side(or)) && Grouped(b, Side(or))
  {
  }

  /** The sides of a pair of regrouped trees, which have as many instructions. */
  lemma NestedSides(strs: seq<Text>, or: bool, a: Node, b: Node, outer: Outer, e: Exits)
    ensures var a', b', p := Nest(Server, a), Nest(Server, b), Parens(Pair(or, a, b), outer);
            && Nest(Server, Pair(or, a, b)) == JoinPair(or, a', b') && Parens(Pair(or, a', b'), outer) == p
            && (IsPair(or, a') <==> IsPair(or, a))
            && InsnCount(a', Side(or)) == InsnCount(a, Side(or)) && InsnCount(b', Side(or)) == InsnCount(b, Side(or))
            && FirstLaid(strs, or, a', b', outer, e) == Laid(strs, a', Side(or), OfFirst(or, p, e, InsnCount(b, Side(or))))
            && FirstLaid(strs, or, a, b, outer, e) == Laid(strs, a, Side(or), OfFirst(or, p, e, InsnCount(b, Side(or))))
            && SecondLaid(strs, or, a', b', outer, e) == Laid(StrsAfter(strs, a), b', Side(or), OfSecond(p, e))
            && SecondLaid(strs, or, a, b, outer, e) == Laid(StrsAfter(strs, a), b, Side(or), OfSecond(p, e))
  {
    ParensOfKind(or, Nest(Server, a), Nest(Server, b), a, b, outer);
    NestKind(Server, a);
    NestStrs(strs, a);
    NestCount(a, Side(or));
    NestCount(b, Side(or));
    hide Laid, InsnCount, StrsAfter, OfFirst, OfSecond, Parens;
  }

  /** Regrouping the chains of a grouped tree changes nothing in the code. */
  lemma {:induction false} NestLaid(strs: seq<Text>, n: Node, outer: Outer, e: Exits)
    requires Grouped(n, outer)
    ensures Laid(strs, Nest(Server, n), outer, e) == Laid(strs, n, outer, e)
    decreases n, 1
  {
    match n
    case And(a, b) => NestLaidPair(strs, false, a, b, outer, e);
    case Or(a, b) => NestLaidPair(strs, true, a, b, outer, e);
    case Not(m) => NestLaid(strs, m, UnderNot, OfSecond(true, e));
    case _ =>
  }

  lemma {:induction false} NestLaidPair(strs: seq<Text>, or: bool, a: Node, b: Node, outer: Outer, e: Exits)
    requires Grouped(Pair(or, a, b), outer)
    ensures Laid(strs, Nest(Server, Pair(or, a, b)), outer, e) == Laid(strs, Pair(or, a, b), outer, e)
    decreases Pair(or, a, b), 0
  {
    var a', b', p := Nest(Server, a), Nest(Server, b), Parens(Pair(or, a, b), outer);
    GroupedPair(or, a, b, outer);
    NestLaid(StrsAfter(strs, a), b, Side(or), OfSecond(p, e));
    NestLaid(strs, a, Side(or), OfFirst(or, p, e, InsnCount(b, Side(or))));
    hide Laid, InsnCount, StrsAfter, Nest, Parens, PairLaid, Side, JoinPair, Pair, OfFirst, OfSecond, Grouped;
    NestedSides(strs, or, a, b, outer, e);
    LaidJoin(strs, or, a', b', outer, e);
    SidesLaid(strs, or, a', b', outer, e);
    SidesLaid(strs, or, a, b, outer, e);
  }

  // ----- Where regrouping does change the code

  /** At `k` are two jumps of one kind that go to different places, both of them
      among the last `hi` instructions or the end. */
  predicate Differ(c: seq<Insn>, d: seq<Insn>, k: nat, hi: int) {
    && k < |c| == |d| && c[k].op == d[k].op && IsJump(c[k].op) && c[k].arg != d[k].arg
    && 0 <= c[k].arg <= hi && 0 <= d[k].arg <= hi
  }

  lemma DifferFirst(p: bool, f: seq<Insn>, f': seq<Insn>, jump: Insn, s: seq<Insn>, s': seq<Insn>, k: nat, hi: int, hi': int)
    requires Differ(f', f, k, hi) && hi <= hi' && |s| == |s'|
    ensures Differ(PairLaid(p, f', jump, s'), PairLaid(p, f, jump, s), (if p then 1 else 0) + k, hi')
  {
  }

  lemma DifferSecond(p: bool, f: seq<Insn>, f': seq<Insn>, jump: Insn, s: seq<Insn>, s': seq<Insn>, k: nat, hi: int, hi': int)
    requires Differ(s', s, k, hi) && hi <= hi' && |f| == |f'|
    ensures Differ(PairLaid(p, f', jump, s'), PairLaid(p, f, jump, s), (if p then 1 else 0) + |f| + 1 + k, hi')
  {
    var i := (if p then 1 else 0) + |f| + 1 + k;
    assert PairLaid(p, f', jump, s')[i] == s'[k] && PairLaid(p, f, jump, s)[i] == s[k];
  }

  lemma PairLaidAt(p: bool, first: seq<Insn>, jump: Insn, second: seq<Insn>)
    ensures var l, i := PairLaid(p, first, jump, second), (if p then 1 else 0) + |first|;
            |l| > i && l[i] == jump && forall k {:trigger second[k]} :: 0 <= k < |second| ==> i + 1 + k < |l| && l[i + 1 + k] == second[k]
  {
  }

  predicate Within(e: Exits) {
    e.kt <= e.rest && e.kf <= e.rest
  }

  lemma WithinParts(or: bool, p: bool, e: Exits, len: nat)
    requires Within(e)
    ensures Within(OfSecond(p, e)) && Within(OfFirst(or, p, e, len))
  {
  }

  /** A chain in parentheses that starts with a group: regrouped, the jump at the
      end of that group goes to the closing parenthesis, and no longer past it. */
  lemma JoinDiffers(strs: seq<Text>, or: bool, x: Node, y: Node, a: Node, b: Node, outer: Outer, e: Exits) returns (k: nat)
    requires IsPair(or, x) && Parens(Pair(or, a, b), outer) && Within(e)
    requires InsnCount(x, Side(or)) == InsnCount(a, Side(or)) && InsnCount(y, Side(or)) == InsnCount(b, Side(or))
    ensures Differ(Laid(strs, JoinPair(or, x, y), outer, e), Laid(strs, Pair(or, a, b), outer, e), k,
                   e.rest + InsnCount(Pair(or, a, b), outer))
  {
    ParensOfKind(or, x, y, a, b, outer);
    PairCount(or, a, b, outer);
    PairCount(or, x, y, outer);
    JoinCount(or, x, y, outer);
    hide Laid, StrsAfter, Parens, Side, JoinPair, InsnCount, Pair, PairLaid;
    LaidCount(strs, JoinPair(or, x, y), outer, e);
    SidesLaid(strs, or, a, b, outer, e);
    PairLaidAt(true, FirstLaid(strs, or, a, b, outer, e), JumpLaid(or, e), SecondLaid(strs, or, a, b, outer, e));
    AtGroup(strs, or, x, y, outer, e);
    JumpsApart(or, e);
    k := 1 + InsnCount(a, Side(or));
  }

  lemma AtGroup(strs: seq<Text>, or: bool, x: Node, y: Node, outer: Outer, e: Exits)
    requires IsPair(or, x) && Parens(Pair(or, x, y), outer)
    ensures var l, i := Laid(strs, JoinPair(or, x, y), outer, e), 1 + InsnCount(x, Side(or));
            i < |l| && l[i] == JumpLaid(or, OfSecond(true, e))
  {
    hide *;
    JoinedPair(or, x, y);
    var tail := JoinPair(or, x.b, y);
    ParensOfKind(or, x.a, tail, x, y, outer);
    GroupCount(or, x);
    SidesLaid(strs, or, x.a, tail, outer, e);
    SecondJump(StrsAfter(strs, x.a), or, x.b, y, OfSecond(true, e));
    SecondIsJoined(strs, or, x.a, tail, outer, e);
    PairLaidAt(true, FirstLaid(strs, or, x.a, tail, outer, e), JumpLaid(or, e), SecondLaid(strs, or, x.a, tail, outer, e));
  }

  lemma JumpsApart(or: bool, e: Exits)
    requires Within(e)
    ensures var j, j' := JumpLaid(or, e), JumpLaid(or, OfSecond(true, e));
            j.op == j'.op && IsJump(j.op) && j.arg <= e.rest && j'.arg == e.rest + 1
  {
  }

  lemma GroupCount(or: bool, x: Node)
    requires IsPair(or, x)
    ensures (x.And? || x.Or?) && InsnCount(x, Side(or)) == InsnCount(x.a, Side(or)) + 1 + InsnCount(x.b, Side(or))
  {
    PairCount(or, x.a, x.b, Side(or));
    SideOpen(or, x.a, x.b);
    hide InsnCount, Side, Parens;
  }

  lemma JoinedPair(or: bool, x: Node, y: Node)
    requires IsPair(or, x)
    ensures (x.And? || x.Or?) && JoinPair(or, x, y) == Pair(or, x.a, JoinPair(or, x.b, y)) && x == Pair(or, x.a, x.b)
  {
  }

  lemma SecondIsJoined(strs: seq<Text>, or: bool, a: Node, tail: Node, outer: Outer, e: Exits)
    requires Parens(Pair(or, a, tail), outer)
    ensures SecondLaid(strs, or, a, tail, outer, e) == Laid(StrsAfter(strs, a), tail, Side(or), OfSecond(true, e))
  {
    hide Laid, StrsAfter, Side, Parens;
  }

  /** The jump of a pair that is joined, without parentheses. */
  lemma SecondJump(strs: seq<Text>, or: bool, x: Node, y: Node, e: Exits)
    ensures var l, i := Laid(strs, JoinPair(or, x, y), Side(or), e), InsnCount(x, Side(or));
            i < |l| && l[i] == JumpLaid(or, e)
  {
    hide *;
    SideOpen(or, x, y);
    LaidJoin(strs, or, x, y, Side(or), e);
    SidesLaid(strs, or, x, y, Side(or), e);
    PairLaidAt(false, FirstLaid(strs, or, x, y, Side(or), e), JumpLaid(or, e), SecondLaid(strs, or, x, y, Side(or), e));
  }

  lemma {:induction false} NestDiffers(strs: seq<Text>, n: Node, outer: Outer, e: Exits) returns (k: nat)
    requires !Grouped(n, outer) && Within(e)
    ensures Differ(Laid(strs, Nest(Server, n), outer, e), Laid(strs, n, outer, e), k, e.rest + InsnCount(n, outer))
    decreases n, 1
  {
    match n
    case And(a, b) => k := NestDiffersPair(strs, false, a, b, outer, e);
    case Or(a, b) => k := NestDiffersPair(strs, true, a, b, outer, e);
    case Not(m) =>
      k := NestDiffers(strs, m, UnderNot, OfSecond(true, e));
      LaidIs(strs, n, outer, e);
      LaidIs(strs, Nest(Server, n), outer, e);
      hide Laid;
  }

  lemma {:induction false} NestDiffersPair(strs: seq<Text>, or: bool, a: Node, b: Node, outer: Outer, e: Exits) returns (k: nat)
    requires !Grouped(Pair(or, a, b), outer) && Within(e)
    ensures Differ(Laid(strs, Nest(Server, Pair(or, a, b)), outer, e), Laid(strs, Pair(or, a, b), outer, e), k,
                   e.rest + InsnCount(Pair(or, a, b), outer))
    decreases Pair(or, a, b), 0
  {
    var a', b', p := Nest(Server, a), Nest(Server, b), Parens(Pair(or, a, b), outer);
    hide *;
    WithinParts(or, p, e, InsnCount(b, Side(or)));
    GroupedPair(or, a, b, outer);
    PairIsLess(or, a, b);
    NestedSides(strs, or, a, b, outer, e);
    if p && IsPair(or, a) {
      k := JoinDiffers(strs, or, a', b', a, b, outer, e);
    } else {
      LaidJoin(strs, or, a', b', outer, e);
      if !Grouped(a, Side(or)) {
        k := NestDiffers(strs, a, Side(or), OfFirst(or, p, e, InsnCount(b, Side(or))));
        FirstDiffers(strs, or, a, b, outer, e, k);
        k := (if p then 1 else 0) + k;
      } else {
        k := NestDiffers(StrsAfter(strs, a), b, Side(or), OfSecond(p, e));
        SecondDiffers(strs, or, a, b, outer, e, k);
        k := (if p then 1 else 0) + InsnCount(a, Side(or)) + 1 + k;
      }
    }
  }

  lemma PairIsLess(or: bool, a: Node, b: Node)
    ensures a < Pair(or, a, b) && b < Pair(or, a, b)
  {
  }

  /** The code of a pair before and after its sides are regrouped. */
  lemma BothSides(strs: seq<Text>, or: bool, a: Node, b: Node, outer: Outer, e: Exits)
    ensures var a', b', p, o := Nest(Server, a), Nest(Server, b), Parens(Pair(or, a, b), outer), Side(or);
            var first, first' := FirstLaid(strs, or, a, b, outer, e), FirstLaid(strs, or, a', b', outer, e);
            var second, second' := SecondLaid(strs, or, a, b, outer, e), SecondLaid(strs, or, a', b', outer, e);
            var f, g := OfFirst(or, p, e, InsnCount(b, o)), OfSecond(p, e);
            && first == Laid(strs, a, o, f) && first' == Laid(strs, a', o, f) && |first| == |first'| == InsnCount(a, o)
            && second == Laid(StrsAfter(strs, a), b, o, g) && second' == Laid(StrsAfter(strs, a), b', o, g) && |second| == |second'|
            && Laid(strs, Pair(or, a, b), outer, e) == PairLaid(p, first, JumpLaid(or, e), second)
            && Laid(strs, Pair(or, a', b'), outer, e) == PairLaid(p, first', JumpLaid(or, e), second')
  {
    hide *;
    NestedSides(strs, or, a, b, outer, e);
    SidesLaid(strs, or, Nest(Server, a), Nest(Server, b), outer, e);
    SidesLaid(strs, or, a, b, outer, e);
  }

  lemma RoomInside(or: bool, a: Node, b: Node, outer: Outer, e: Exits)
    ensures var p, o, all := Parens(Pair(or, a, b), outer), Side(or), e.rest + InsnCount(Pair(or, a, b), outer);
            && OfFirst(or, p, e, InsnCount(b, o)).rest + InsnCount(a, o) <= all
            && OfSecond(p, e).rest + InsnCount(b, o) <= all
  {
    PairCount(or, a, b, outer);
    hide InsnCount, Parens, Pair, Side;
  }

  lemma FirstDiffers(strs: seq<Text>, or: bool, a: Node, b: Node, outer: Outer, e: Exits, k: nat)
    requires var p, o := Parens(Pair(or, a, b), outer), Side(or);
             var f := OfFirst(or, p, e, InsnCount(b, o));
             Differ(Laid(strs, Nest(Server, a), o, f), Laid(strs, a, o, f), k, f.rest + InsnCount(a, o))
    ensures Differ(Laid(strs, Pair(or, Nest(Server, a), Nest(Server, b)), outer, e), Laid(strs, Pair(or, a, b), outer, e),
                   (if Parens(Pair(or, a, b), outer) then 1 else 0) + k, e.rest + InsnCount(Pair(or, a, b), outer))
  {
    var a', b', p, o := Nest(Server, a), Nest(Server, b), Parens(Pair(or, a, b), outer), Side(or);
    var f := OfFirst(or, p, e, InsnCount(b, o));
    hide *;
    RoomInside(or, a, b, outer, e);
    BothSides(strs, or, a, b, outer, e);
    DifferFirst(p, FirstLaid(strs, or, a, b, outer, e), FirstLaid(strs, or, a', b', outer, e), JumpLaid(or, e),
                SecondLaid(strs, or, a, b, outer, e), SecondLaid(strs, or, a', b', outer, e), k,
                f.rest + InsnCount(a, o), e.rest + InsnCount(Pair(or, a, b), outer));
  }

  lemma SecondDiffers(strs: seq<Text>, or: bool, a: Node, b: Node, outer: Outer, e: Exits, k: nat)
    requires var f, o, s1 := OfSecond(Parens(Pair(or, a, b), outer), e), Side(or), StrsAfter(strs, a);
             Differ(Laid(s1, Nest(Server, b), o, f), Laid(s1, b, o, f), k, f.rest + InsnCount(b, o))
    ensures Differ(Laid(strs, Pair(or, Nest(Server, a), Nest(Server, b)), outer, e), Laid(strs, Pair(or, a, b), outer, e),
                   (if Parens(Pair(or, a, b), outer) then 1 else 0) + InsnCount(a, Side(or)) + 1 + k,
                   e.rest + InsnCount(Pair(or, a, b), outer))
  {
    var a', b', p, o := Nest(Server, a), Nest(Server, b), Parens(Pair(or, a, b), outer), Side(or);
    var f := OfSecond(p, e);
    hide *;
    RoomInside(or, a, b, outer, e);
    BothSides(strs, or, a, b, outer, e);
    DifferSecond(p, FirstLaid(strs, or, a, b, outer, e), FirstLaid(strs, or, a', b', outer, e), JumpLaid(or, e),
                 SecondLaid(strs, or, a, b, outer, e), SecondLaid(strs, or, a', b', outer, e), k,
                 f.rest + InsnCount(b, o), e.rest + InsnCount(Pair(or, a, b), outer));
  }

  // ----- Bytes tell them apart

  lemma {:induction false} LandedInsnsAt(cells: seq<Insn>, total: int, strs: seq<Text>, k: nat)
    requires k < |cells|
    ensures LandedInsns(cells, total, strs)[k * INSN_LEN..(k + 1) * INSN_LEN] == LandedInsn(cells[k], total, strs)
    decreases k
  {
    hide LandedInsn;
    var all, rest := LandedInsns(cells, total, strs), LandedInsns(cells[1..], total, strs);
    if k > 0 {
      LandedInsnsAt(cells[1..], total, strs, k - 1);
      assert all[INSN_LEN..] == rest;
      assert all[INSN_LEN..][(k - 1) * INSN_LEN..k * INSN_LEN] == all[k * INSN_LEN..(k + 1) * INSN_LEN];
    }
  }

  lemma LandedBytesAt(c: seq<Insn>, strs: seq<Text>, k: nat)
    requires k < |c| && IsJump(c[k].op)
    ensures (k + 1) * INSN_LEN <= |LandedBytes(c, strs)|
    ensures LandedBytes(c, strs)[k * INSN_LEN..(k + 1) * INSN_LEN][1..] == EncodeInt((|c| - c[k].arg) * INSN_LEN)
  {
    LandedInsnsAt(c, |c|, strs, k);
    JumpBytes(c[k], |c|, strs);
    hide LandedInsns, LandedInsn, EncodeInt, StringSection;
    assert LandedBytes(c, strs)[k * INSN_LEN..(k + 1) * INSN_LEN] == LandedInsns(c, |c|, strs)[k * INSN_LEN..(k + 1) * INSN_LEN];
  }

  lemma DifferBytes(c: seq<Insn>, d: seq<Insn>, k: nat, strs: seq<Text>)
    requires Differ(c, d, k, |c|) && |c| * INSN_LEN < INT_LIMIT
    ensures LandedBytes(c, strs) != LandedBytes(d, strs)
  {
    hide LandedBytes, EncodeInt, DecodeInt;
    LandedBytesAt(c, strs, k);
    LandedBytesAt(d, strs, k);
    DecodeEncode((|c| - c[k].arg) * INSN_LEN);
    DecodeEncode((|d| - d[k].arg) * INSN_LEN);
  }

  lemma JumpBytes(insn: Insn, total: int, strs: seq<Text>)
    requires IsJump(insn.op)
    ensures LandedInsn(insn, total, strs)[1..] == EncodeInt((total - insn.arg) * INSN_LEN)
  {
    hide EncodeInt;
  }

  lemma TreeBytesLength(n: Node)
    ensures |TreeBytes(n)| == (InsnCount(n, Alone) + 1) * INSN_LEN + |StringSection(StrsAfter([], n))|
  {
    LaidCount([], n, Alone, END);
    hide Laid, InsnCount, StrsAfter;
  }

  // ----- Pairs that regrouping brings together

  lemma {:induction false} OptimizeStrs(strs: seq<Text>, n: Node)
    ensures StrsAfter(strs, Optimize(n)) == StrsAfter(strs, n)
    decreases n
  {
    match n
    case And(a, b) => OptimizeStrs(strs, a); OptimizeStrs(StrsAfter(strs, a), b);
    case Or(a, b) => if !IsCarryPair(a, b) { OptimizeStrs(strs, a); OptimizeStrs(StrsAfter(strs, a), b); }
    case Not(m) => if m.Not? { OptimizeStrs(strs, m.n); } else if !m.Bool? { OptimizeStrs(strs, m); }
    case _ =>
  }

  /** A tree whose NOTs are settled gets shorter by rewriting just when it holds
      a pair. */
  lemma {:induction false} OptimizeCount(n: Node, outer: Outer)
    requires NotsSettled(n)
    ensures InsnCount(Optimize(n), outer) <= InsnCount(n, outer)
    ensures InsnCount(Optimize(n), outer) == InsnCount(n, outer) <==> NoPairs(n)
    decreases n
  {
    match n
    case And(a, b) => OptimizeCount(a, UnderAnd); OptimizeCount(b, UnderAnd);
    case Or(a, b) => OptimizeCount(a, UnderOr); OptimizeCount(b, UnderOr);
    case Not(m) => OptimizeCount(m, UnderNot);
    case _ =>
  }

  lemma {:induction false} JoinSettled(or: bool, x: Node, y: Node)
    requires NotsSettled(x) && NotsSettled(y)
    ensures NotsSettled(JoinPair(or, x, y))
    decreases x
  {
    if IsPair(or, x) { JoinSettled(or, x.b, y); }
  }

  lemma {:induction false} NestSettled(n: Node)
    requires NotsSettled(n)
    ensures NotsSettled(Nest(Server, n))
  {
    match n
    case And(a, b) => NestSettled(a); NestSettled(b); JoinSettled(false, Nest(Server, a), Nest(Server, b));
    case Or(a, b) => NestSettled(a); NestSettled(b); JoinSettled(true, Nest(Server, a), Nest(Server, b));
    case Not(m) => NestSettled(m); NestKind(Server, m);
    case _ =>
  }

  /** Printing a compiled lock, reading it back and compiling that. */
  lemma RewrittenReload(n: Node)
    requires Compilable(n)
    ensures var m := Optimize(n);
            Compile(Nest(Server, m)) == Compile(n) <==> Grouped(m, Alone) && NoPairs(Nest(Server, m))
  {
    var m := Optimize(n);
    var k := Nest(Server, m);
    hide Optimize, Compile, TreeBytes, Grouped, NoPairs, Nest;
    OptimizeSettlesNots(n);
    NestSettled(m);
    NestCount(m, Alone);
    NestStrs([], m);
    CompileIsTreeBytes(n);
    CompileIsTreeBytes(k);
    TreeBytesLength(m);
    if NoPairs(k) {
      OptimizeFixedPoints(k);
      SameTreeBytes(m);
    } else {
      OptimizeCount(k, Alone);
      OptimizeStrs([], k);
      TreeBytesLength(Optimize(k));
    }
  }

  lemma SameTreeBytes(m: Node)
    requires |TreeBytes(m)| < INT_LIMIT
    ensures TreeBytes(Nest(Server, m)) == TreeBytes(m) <==> Grouped(m, Alone)
  {
    var k := Nest(Server, m);
    NestStrs([], m);
    TreeBytesLength(m);
    LaidCount([], m, Alone, END);
    LaidCount([], k, Alone, END);
    NestCount(m, Alone);
    if Grouped(m, Alone) {
      NestLaid([], m, Alone, END);
    } else {
      var i := NestDiffers([], m, Alone, END);
      hide Laid, InsnCount, StrsAfter, LandedBytes, Differ, Nest, Grouped;
      var c, d, ret := Laid([], k, Alone, END), Laid([], m, Alone, END), [Insn(RET, 0)];
      DifferThen(c, d, i, |c| + 1, ret);
      DifferBytes(c + ret, d + ret, i, StrsAfter([], m));
    }
  }

  lemma DifferThen(c: seq<Insn>, d: seq<Insn>, k: nat, hi: int, more: seq<Insn>)
    requires Differ(c, d, k, hi)
    ensures Differ(c + more, d + more, k, hi)
  {
  }

  // ----- The condition, on the lock as it was written

  /** The parts of a chain of ORs. */
  function Parts(n: Node): (ps: seq<Node>)
    ensures |ps| > 0 && (n.Or? ==> |ps| > 1)
  {
    if n.Or? then Parts(n.a) + Parts(n.b) else [n]
  }

  /** The chain ends in `=x|+x`. */
  predicate EndsInPair(ps: seq<Node>) {
    |ps| > 1 && IsCarryPair(ps[|ps| - 2], ps[|ps| - 1])
  }

  /** No part of the chain holds a pair. */
  predicate PartsPairless(n: Node) {
    if n.Or? then PartsPairless(n.a) && PartsPairless(n.b) else NoPairs(n)
  }

  /** All ORs in a chain are nested to the right. */
  predicate ToTheRight(n: Node) {
    n.Or? ==> !n.a.Or? && ToTheRight(n.b)
  }

  lemma {:induction false} PairOnlyAtEnd(n: Node)
    requires ToTheRight(n)
    ensures NoPairs(n) <==> !EndsInPair(Parts(n)) && PartsPairless(n)
  {
    if n.Or? {
      PairOnlyAtEnd(n.b);
      var ps := Parts(n.b);
      assert Parts(n) == [n.a] + ps;
      if n.b.Or? { assert Parts(n)[|ps|] == ps[|ps| - 1] && Parts(n)[|ps| - 1] == ps[|ps| - 2]; }
    }
  }

  lemma {:induction false} JoinOrParts(x: Node, y: Node)
    requires ToTheRight(x) && ToTheRight(y)
    ensures ToTheRight(JoinOr(x, y)) && Parts(JoinOr(x, y)) == Parts(x) + Parts(y)
    ensures PartsPairless(JoinOr(x, y)) <==> PartsPairless(x) && PartsPairless(y)
  {
    if x.Or? {
      JoinOrParts(x.b, y);
      assert Parts(x.a) + (Parts(x.b) + Parts(y)) == (Parts(x.a) + Parts(x.b)) + Parts(y);
    }
  }

  lemma {:induction false} JoinAndPairs(x: Node, y: Node)
    ensures NoPairs(JoinAnd(x, y)) <==> NoPairs(x) && NoPairs(y)
  {
    if x.And? { JoinAndPairs(x.b, y); }
  }

  /** No chain of ORs ends in a pair, however it is grouped.  `inner` says that
      `n` is only a stretch of a chain. */
  predicate NoTails(n: Node, inner: bool)
    decreases n
  {
    match n
    case And(a, b) => NoTails(a, false) && NoTails(b, false)
    case Or(a, b) => (inner || !EndsInPair(Parts(n))) && NoTails(a, true) && NoTails(b, true)
    case Not(m) => NoTails(m, false)
    case _ => true
  }

  lemma {:induction false} NestParts(n: Node)
    ensures ToTheRight(Nest(Server, n)) && |Parts(Nest(Server, n))| == |Parts(n)|
    ensures forall i :: 0 <= i < |Parts(n)| ==> Parts(Nest(Server, n))[i] == Nest(Server, Parts(n)[i])
  {
    if n.Or? {
      NestParts(n.a);
      NestParts(n.b);
      JoinOrParts(Nest(Server, n.a), Nest(Server, n.b));
    } else {
      NestKind(Server, n);
    }
  }

  lemma SamePairs(a: Node, b: Node)
    ensures IsCarryPair(Nest(Server, a), Nest(Server, b)) <==> IsCarryPair(a, b)
  {
    NestKind(Server, a);
    NestKind(Server, b);
    NestAtom(a);
    NestAtom(b);
  }

  lemma NestAtom(n: Node)
    ensures IsAtom(Nest(Server, n)) <==> IsAtom(n)
    ensures IsAtom(n) ==> Nest(Server, n) == n
  {
    NestKind(Server, n);
  }

  lemma {:induction false} NestPairs(n: Node)
    ensures PartsPairless(Nest(Server, n)) <==> NoTails(n, true)
    ensures NoPairs(Nest(Server, n)) <==> NoTails(n, false)
    decreases n
  {
    match n
    case And(a, b) =>
      NestPairs(a);
      NestPairs(b);
      NestKind(Server, n);
      JoinAndPairs(Nest(Server, a), Nest(Server, b));
    case Or(a, b) =>
      NestPairs(a);
      NestPairs(b);
      NestParts(a);
      NestParts(b);
      JoinOrParts(Nest(Server, a), Nest(Server, b));
      PairOnlyAtEnd(Nest(Server, n));
      SameEnds(n);
    case Not(m) =>
      NestPairs(m);
    case _ =>
  }

  lemma SameEnds(n: Node)
    ensures EndsInPair(Parts(Nest(Server, n))) <==> EndsInPair(Parts(n))
  {
    NestParts(n);
    var ps := Parts(n);
    if |ps| > 1 { SamePairs(ps[|ps| - 2], ps[|ps| - 1]); }
  }

  lemma {:induction false} StripSmaller(n: Node)
    ensures NodeCount(Strip(n)) <= NodeCount(n) && Strip(Strip(n)) == Strip(n) && !(Strip(n).Not? && Strip(n).n.Not?)
    ensures Optimize(Strip(n)) == Optimize(n)
  {
    if n.Not? && n.n.Not? { StripSmaller(n.n.n); }
  }

  /** The lock is an OR, under NOTs that cancel out, and not one that is folded. */
  predicate IsChain(n: Node) {
    var m := Strip(n);
    m.Or? && !IsCarryPair(m.a, m.b)
  }

  /** The parts of the chain of ORs that the lock is rewritten to. */
  function Chain(n: Node): (ps: seq<Node>)
    ensures |ps| > 0
    decreases NodeCount(n)
  {
    StripSmaller(n);
    if IsChain(n) then Chain(Strip(n).a) + Chain(Strip(n).b) else [Strip(n)]
  }

  /** The lock, under NOTs that cancel out or not, has no chain that gets
      parentheses and starts with a group of its own kind, and no chain of ORs
      that ends in `=x|+x` and is not folded as it stands. */
  predicate Reloads(n: Node, outer: Outer)
    decreases NodeCount(n)
  {
    StripSmaller(n);
    var m := Strip(n);
    match m
    case And(a, b) => (Parens(m, outer) ==> !Strip(a).And?) && Reloads(a, UnderAnd) && Reloads(b, UnderAnd)
    case Or(a, b) =>
      || IsCarryPair(a, b)
      || (&& (Parens(m, outer) ==> !IsChain(a)) && (outer == UnderOr || !EndsInPair(Chain(n)))
          && Reloads(a, UnderOr) && Reloads(b, UnderOr))
    case Not(x) => Reloads(x, UnderNot)
    case _ => true
  }

  /** What rewriting makes of a lock without NOTs to cancel. */
  lemma RewrittenKind(n: Node)
    ensures Optimize(n).And? <==> Strip(n).And?
    ensures Optimize(n).Or? <==> IsChain(n)
  {
    StripSmaller(n);
  }

  lemma {:induction false} ChainParts(n: Node)
    ensures |Parts(Optimize(n))| == |Chain(n)|
    ensures forall i :: 0 <= i < |Chain(n)| ==> Parts(Optimize(n))[i] == Optimize(Chain(n)[i]) && Strip(Chain(n)[i]) == Chain(n)[i]
    decreases NodeCount(n)
  {
    StripSmaller(n);
    RewrittenKind(n);
    if IsChain(n) {
      ChainParts(Strip(n).a);
      ChainParts(Strip(n).b);
    }
  }

  lemma ChainEnds(n: Node)
    ensures EndsInPair(Parts(Optimize(n))) <==> EndsInPair(Chain(n))
  {
    ChainParts(n);
    var ps := Chain(n);
    if |ps| > 1 {
      StripIsOptimize(ps[|ps| - 2]);
      StripIsOptimize(ps[|ps| - 1]);
    }
  }

  lemma {:induction false} ReloadsIs(n: Node, outer: Outer)
    ensures Reloads(n, outer) <==> Grouped(Optimize(n), outer) && NoTails(Optimize(n), outer == UnderOr)
    decreases NodeCount(n)
  {
    StripSmaller(n);
    ChainEnds(n);
    match Strip(n)
    case And(a, b) =>
      RewrittenKind(a);
      ReloadsIs(a, UnderAnd);
      ReloadsIs(b, UnderAnd);
    case Or(a, b) =>
      RewrittenKind(a);
      ReloadsIs(a, UnderOr);
      ReloadsIs(b, UnderOr);
    case Not(x) =>
      ReloadsIs(x, UnderNot);
    case _ =>
  }

  /** A compiled lock that is printed, read back and compiled again comes to the
      very same bytes if and only if no chain of it that gets parentheses starts
      with a group of its own kind, and no chain of ORs ends in a pair that only
      regrouping brings together. */
  lemma ReloadSame(n: Node)
    requires Compilable(n)
    ensures var p := ParseE(UnparseBytes(Compile(n), 0, -1));
            p.Ok? && (Compile(p.n) == Compile(n) <==> Reloads(n, Alone))
  {
    hide Compile, UnparseBytes, Nest, Optimize, Reloads, Grouped, NoTails, NoPairs, ParseE;
    DecompileParses(n);
    RewrittenReload(n);
    NestPairs(Optimize(n));
    ReloadsIs(n, Alone);
  }

  /** `!((=#1&=#2)&=#3)` and `(=#2|=#1)|+#1`. */
  function Awkward(or: bool): Node {
    if or then Or(Or(Is(2), Is(1)), Carry(1)) else Not(And(And(Is(1), Is(2)), Is(3)))
  }

  lemma AwkwardIs(or: bool)
    ensures Storable(Awkward(or)) && Optimize(Awkward(or)) == Awkward(or)
  {
  }

  lemma AwkwardCount(or: bool)
    ensures InsnCount(Awkward(or), Alone) <= 8
  {
  }

  lemma AwkwardStrings(or: bool)
    ensures StringSection(StrsAfter([], Awkward(or))) == []
  {
    assert forall n: Node :: n.Is? || n.Carry? ==> StrsAfter([], n) == [];
  }

  lemma AwkwardReloads(or: bool)
    ensures !Reloads(Awkward(or), Alone)
  {
  }

  lemma AwkwardFits(or: bool)
    ensures Compilable(Awkward(or))
  {
    hide Compile, TreeBytes, InsnCount, StringSection, StrsAfter, Optimize, Storable, Awkward;
    AwkwardIs(or);
    AwkwardCount(or);
    AwkwardStrings(or);
    CompileIsTreeBytes(Awkward(or));
    TreeBytesLength(Awkward(or));
  }

  /** Two locks that come back different: the one because of the parentheses, the
      other because of a pair. */
  lemma ReloadDiffers(or: bool)
    ensures var n, p := Awkward(or), ParseE(UnparseBytes(Compile(Awkward(or)), 0, -1));
            Compilable(n) && p.Ok? && Compile(p.n) != Compile(n)
  {
    hide *;
    AwkwardFits(or);
    AwkwardReloads(or);
    ReloadSame(Awkward(or));
  }
}
