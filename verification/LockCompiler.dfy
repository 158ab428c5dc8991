/** The whole compiler, from parse tree to bytecode. */
module LockCompiler {
  import opened Bytes
  import opened LockTree
  import opened LockAsm
  import opened JumpThreading
  import opened LockBytecode

  /** Rewritten, turned into assembly, and threaded. */
  function Assemble(n: Node): Asm {
    var a := Generate(Optimize(n));
    GenerateThreadable(Optimize(n));
    var (code, labels) := Thread(a.insns, a.labels, 0);
    Asm(code, a.strs, labels)
  }

  function Compile(n: Node): seq<Byte> {
    Emit(Assemble(n).insns, Assemble(n).strs)
  }

  /** The length of the instructions, without the strings. */
  function CodeLength(n: Node): nat {
    Real(Assemble(n).insns, 0) * INSN_LEN
  }

  /** Objects fit in an int and texts in a C string. */
  predicate Storable(n: Node) {
    match n
    case And(a, b) => Storable(a) && Storable(b)
    case Or(a, b) => Storable(a) && Storable(b)
    case Not(m) => Storable(m)
    case Ind(x, lock) => IsInt(x) && NulFree(lock)
    case Is(x) => IsInt(x)
    case Carry(x) => IsInt(x)
    case Owner(x) => IsInt(x)
    case Const(x) => IsInt(x)
    case Bool(v) => true
    case Atr(name, text) => NulFree(name) && NulFree(text)
    case Eval(name, text) => NulFree(name) && NulFree(text)
    case Flag(key, text) => NulFree(text)
  }

  /** What the representation of a lock demands: everything fits. */
  predicate Compilable(n: Node) {
    Storable(n) && |Compile(n)| < INT_LIMIT
  }

  lemma GenerateThreadable(n: Node)
    ensures Threadable(Generate(n).insns, Generate(n).labels)
  {
    GenerateWellFormed(n);
    var a := Asm([], [], 0);
    GenLabels(a, n, Alone);
    GenExtends(a, n, Alone);
    LabelRangeJoin(Gen(a, n, Alone).insns, Generate(n).insns, 0, 0, Generate(n).labels, Generate(n).labels);
  }

  lemma {:induction false} OptimizeStorable(n: Node)
    requires Storable(n)
    ensures Storable(Optimize(n))
  {
    match n
    case And(a, b) => OptimizeStorable(a); OptimizeStorable(b);
    case Or(a, b) => if !IsCarryPair(a, b) { OptimizeStorable(a); OptimizeStorable(b); }
    case Not(m) => if m.Not? { OptimizeStorable(m.n); } else if !m.Bool? { OptimizeStorable(m); }
    case _ =>
  }

  lemma {:induction false} GenFits(a: Asm, n: Node, outer: Outer)
    requires Storable(n) && ArgsFit(a.insns) && AllNulFree(a.strs)
    ensures ArgsFit(Gen(a, n, outer).insns) && AllNulFree(Gen(a, n, outer).strs)
    decreases n
  {
    GenIs(a, n, outer);
    StorableParts(n);
    hide Gen, GenPair, GenAtom, Append, Storable, ArgsFit, AllNulFree, Open, AfterJump, AfterSecond;
    if n.And? || n.Or? {
      var a0, a1, a2 := Open(a, n, outer), AfterJump(a, n, outer), AfterSecond(a, n, outer);
      PairSteps(a, n, outer);
      FitsAppend(a.(labels := a.labels + 1), PAREN, 0);
      GenFits(a0, n.a, InnerOf(n));
      FitsAppend(Gen(a0, n.a, InnerOf(n)), JumpOf(n), a.labels);
      GenFits(a1, n.b, InnerOf(n));
      FitsAppend(a2, PAREN, 1);
      FitsAppend(Close(a2, n, outer), LABEL, a.labels);
    } else if n.Not? {
      GenFits(a, n.n, UnderNot);
      FitsAppend(Gen(a, n.n, UnderNot), NEGR, 0);
    } else {
      GenFitsAtom(a, n);
    }
  }

  lemma StorableParts(n: Node)
    requires Storable(n)
    ensures n.And? || n.Or? ==> Storable(n.a) && Storable(n.b)
    ensures n.Not? ==> Storable(n.n)
  {
  }

  lemma FitsAppend(a: Asm, op: Op, arg: int)
    requires ArgsFit(a.insns) && (IsJump(op) || HasString(op) || op == LABEL || IsInt(arg))
    ensures ArgsFit(Append(a, op, arg).insns) && Append(a, op, arg).strs == a.strs
  {
  }

  lemma FitsAppendString(a: Asm, op: Op, s: Text)
    requires ArgsFit(a.insns) && AllNulFree(a.strs) && HasString(op) && NulFree(s)
    ensures ArgsFit(AppendString(a, op, s).insns) && AllNulFree(AppendString(a, op, s).strs)
  {
    FitsAppend(a, op, FindString(a.strs, s));
    hide ArgsFit, FindString;
  }

  lemma GenFitsAtom(a: Asm, n: Node)
    requires IsAtom(n) && Storable(n) && ArgsFit(a.insns) && AllNulFree(a.strs)
    ensures ArgsFit(GenAtom(a, n).insns) && AllNulFree(GenAtom(a, n).strs)
  {
    hide ArgsFit, AllNulFree, Append, AppendString, NulFree;
    match n
    case Ind(x, lock) => FitsAppendString(a, LOADS, lock); FitsAppend(AppendString(a, LOADS, lock), TIND, x);
    case Atr(name, text) => FitsAppendString(a, LOADS, name); FitsAppendString(AppendString(a, LOADS, name), TATR, text);
    case Eval(name, text) => FitsAppendString(a, LOADS, name); FitsAppendString(AppendString(a, LOADS, name), TEVAL, text);
    case Flag(key, text) => FitsAppendString(a, FlagOp(key), text);
    case Is(x) => FitsAppend(a, TIS, x);
    case Carry(x) => FitsAppend(a, TCARRY, x);
    case Owner(x) => FitsAppend(a, TOWNER, x);
    case Const(x) => FitsAppend(a, TCONST, x);
    case Bool(v) => FitsAppend(a, LOADR, if v then 1 else 0);
  }

  lemma {:induction false} ArgsFitSkeleton(code: seq<Insn>)
    ensures ArgsFit(code) <==> ArgsFit(Skeleton(code))
  {
    if code != [] {
      ArgsFitSkeleton(code[1..]);
      assert code == [code[0]] + code[1..];
      var sk := Skeleton(code[1..]);
      assert code[0].op != LABEL ==> Skeleton(code)[0].op == code[0].op && Skeleton(code)[1..] == sk;
    }
  }

  lemma AssembleEmittable(n: Node)
    requires Compilable(n)
    ensures Emittable(Assemble(n).insns, Assemble(n).strs)
  {
    var m := Optimize(n);
    var a := Generate(m);
    OptimizeStorable(n);
    GenFits(Asm([], [], 0), m, Alone);
    GenerateWellFormed(m);
    GenerateThreadable(m);
    ThreadWellFormed(a.insns, a.labels, 0, |a.strs|);
    ThreadFinishes(a.insns, a.labels, 0);
    ThreadSkeleton(a.insns, a.labels, 0);
    ArgsFitSkeleton(a.insns);
    ArgsFitSkeleton(Assemble(n).insns);
  }

  /** The compiler is correct: for every lock and every world, running the
      bytecode gives the value of the lock as it was parsed and makes the same
      probes in the same order, and the machine stays safe throughout. */
  lemma CompileCorrect<S(!new)>(w: World<S>, n: Node, s: S)
    requires Compilable(n)
    ensures RunBytes(w, Compile(n), Vm(0, false, -1, s)) == EvalNode(w, n, false, s)
    ensures SafeRun(w, Compile(n), CodeLength(n), Vm(0, false, -1, s))
  {
    hide EvalNode, Run, RunBytes, SafeRun, Thread, Threadable, MovedTo, Optimize, Gen, Emit, Emittable;
    var m := Optimize(n);
    var a := Generate(m);
    var c := Regs(0, false, -1, s);
    OptimizePreservesMeaning(w, n, false, s);
    GenerateCorrect(w, m, -1, s);
    GenerateThreadable(m);
    ThreadRuns(w, a.insns, a.labels, a.strs, 0, c);
    MovedToOrder(a.insns, a.labels, 0, 0, 0);
    AssembleEmittable(n);
    EmitRuns(w, Assemble(n).insns, a.strs, c, Vm(0, false, -1, s));
  }

  /** In the assembly that is emitted, no jump lands on a jump. */
  lemma AssembleThreaded(n: Node)
    ensures NoneLandOnJump(Assemble(n).insns, |Assemble(n).insns|)
  {
    GenerateThreadable(Optimize(n));
    ThreadFinishes(Generate(Optimize(n)).insns, Generate(Optimize(n)).labels, 0);
  }
}
