/** The search of bytecode for tests that run softcode. */
module EvalLocks {
  import opened Bytes
  import opened LockTree
  import opened LockAsm
  import opened LockBytecode
  import opened LockCompiler
  import opened LockDecompile
  import opened LockStored
  import opened LockUnparse

  predicate RunsSoftcode(op: Op) {
    op == TEVAL || op == TIND
  }

  /** An eval lock or an indirect lock somewhere in the tree. */
  predicate HasEval(n: Node) {
    match n
    case And(a, b) => HasEval(a) || HasEval(b)
    case Or(a, b) => HasEval(a) || HasEval(b)
    case Not(m) => HasEval(m)
    case _ => n.Eval? || n.Ind?
  }

  lemma {:induction false} EvalTests(n: Node)
    ensures HasEval(n) <==> exists t :: t in Tests(n) && (t.Eval? || t.Ind?)
  {
    match n
    case And(a, b) => EvalTests(a); EvalTests(b);
    case Or(a, b) => EvalTests(a); EvalTests(b);
    case Not(m) => EvalTests(m);
    case Eval(_, _) => assert n in Tests(n);
    case Ind(_, _) => assert n in Tests(n);
    case _ =>
  }

  predicate AnyEval(code: seq<Insn>) {
    exists i :: 0 <= i < |code| && RunsSoftcode(code[i].op)
  }

  method IsEvalLock(bytes: seq<Byte>) returns (b: bool)
    requires Walkable(bytes, 0)
    ensures b == EvalAhead(bytes, 0)
  {
    var pc := 0;
    while true
      invariant Walkable(bytes, pc) && EvalAhead(bytes, pc) == EvalAhead(bytes, 0)
      decreases |bytes| - pc
    {
      var op := OpAt(bytes, pc);
      pc := pc + INSN_LEN;
      if op == TEVAL || op == TIND { return true; } else if op == RET { return false; }
    }
  }

  predicate EvalAhead(bytes: seq<Byte>, pc: int)
    decreases |bytes| - pc
  {
    InsnAt(bytes, pc) && OpAt(bytes, pc) != RET && (RunsSoftcode(OpAt(bytes, pc)) || EvalAhead(bytes, pc + INSN_LEN))
  }

  lemma {:induction false} EvalAheadAgrees(n: Node, i: nat)
    requires Compilable(n) && i < |Stored(n)|
    ensures EvalAhead(Compile(n), i * INSN_LEN) <==> AnyEval(Stored(n)[i..])
    decreases |Stored(n)| - i
  {
    hide Stored, Compile, CStringAt, StringNo, OpAt, ArgAt, HasString, AnyEval, RunsSoftcode;
    StoredIs(n, i);
    StoredEnds(n);
    AnyEvalStep(Stored(n), i);
    if Stored(n)[i].op != RET { EvalAheadAgrees(n, i + 1); }
  }

  lemma AnyEvalStep(code: seq<Insn>, i: nat)
    requires i < |code| && (code[i].op == RET ==> i == |code| - 1)
    ensures AnyEval(code[i..]) <==> RunsSoftcode(code[i].op) || AnyEval(code[i + 1..])
    ensures code[i].op == RET ==> !AnyEval(code[i..])
  {
    AnyEvalConcat([code[i]], code[i + 1..]);
    assert code[i..] == [code[i]] + code[i + 1..];
    assert AnyEval([code[i]]) <==> RunsSoftcode(code[i].op) by { assert [code[i]][0] == code[i]; }
  }

  lemma AnyEvalConcat(c: seq<Insn>, d: seq<Insn>)
    ensures AnyEval(c + d) <==> AnyEval(c) || AnyEval(d)
  {
    if AnyEval(d) {
      var i :| 0 <= i < |d| && RunsSoftcode(d[i].op);
      assert (c + d)[|c| + i] == d[i];
    }
    if AnyEval(c) {
      var i :| 0 <= i < |c| && RunsSoftcode(c[i].op);
      assert (c + d)[i] == c[i];
    }
  }

  lemma {:induction false} AnyEvalGen(a: Asm, n: Node, outer: Outer)
    ensures AnyEval(Bare(Gen(a, n, outer))) <==> AnyEval(Bare(a)) || HasEval(n)
    decreases n
  {
    hide AnyEval;
    if n.And? || n.Or? {
      var a0, a1, o := Open(a, n, outer), AfterJump(a, n, outer), InnerOf(n);
      BarePair(a, n, outer);
      AnyEvalGen(a0, n.a, o);
      AnyEvalGen(a1, n.b, o);
      AnyEvalOne(Insn(PAREN, 0));
      AnyEvalOne(Insn(PAREN, 1));
      AnyEvalOne(Insn(JumpOf(n), 0));
      AnyEvalConcat(Bare(a), if Parens(n, outer) then [Insn(PAREN, 0)] else []);
      AnyEvalConcat(Bare(Gen(a0, n.a, o)), [Insn(JumpOf(n), 0)]);
      AnyEvalConcat(Bare(Gen(a1, n.b, o)), if Parens(n, outer) then [Insn(PAREN, 1)] else []);
      AnyEvalNone();
    } else if n.Not? {
      AnyEvalGen(a, n.n, UnderNot);
      BareAppend(Gen(a, n.n, UnderNot), NEGR, 0);
      AnyEvalConcat(Bare(Gen(a, n.n, UnderNot)), [Insn(NEGR, 0)]);
      AnyEvalOne(Insn(NEGR, 0));
    } else {
      BareAtom(a, n);
      AnyEvalConcat(Bare(a), AtomInsns(a, n));
      AnyEvalAtom(a, n);
    }
  }

  lemma AnyEvalOne(insn: Insn)
    ensures AnyEval([insn]) <==> RunsSoftcode(insn.op)
  {
    assert [insn][0] == insn;
  }

  lemma AnyEvalNone()
    ensures !AnyEval([])
  {
  }

  lemma AnyEvalAtom(a: Asm, n: Node)
    requires IsAtom(n)
    ensures AnyEval(AtomInsns(a, n)) <==> HasEval(n)
  {
    var g := AtomInsns(a, n);
    if |g| == 2 { assert RunsSoftcode(g[1].op) <==> HasEval(n); } else { assert |g| == 1; }
  }

  lemma {:induction false} HasEvalOptimize(n: Node)
    ensures HasEval(Optimize(n)) <==> HasEval(n)
  {
    match n
    case And(a, b) => HasEvalOptimize(a); HasEvalOptimize(b);
    case Or(a, b) => if !IsCarryPair(a, b) { HasEvalOptimize(a); HasEvalOptimize(b); }
    case Not(m) => if m.Not? { HasEvalOptimize(m.n); } else if !m.Bool? { HasEvalOptimize(m); }
    case _ =>
  }

  /** The search of the bytecode answers a question about the lock as parsed. */
  lemma EvalLockFound(n: Node)
    requires Compilable(n)
    ensures EvalAhead(Compile(n), 0) <==> HasEval(n)
  {
    hide AnyEval;
    var a, m := Asm([], [], 0), Optimize(n);
    StoredShape(n);
    StoredEnds(n);
    EvalAheadAgrees(n, 0);
    AnyEvalGen(a, m, Alone);
    AnyEvalConcat(Bare(Gen(a, m, Alone)), [Insn(RET, 0)]);
    AnyEvalOne(Insn(RET, 0));
    AnyEvalNone();
    HasEvalOptimize(n);
    assert Stored(n)[0..] == Stored(n);
  }
}
