/** Compiled bytecode as the sequence of instructions that it stores. */
module LockStored {
  import opened Bytes
  import opened LockTree
  import opened LockAsm
  import opened JumpThreading
  import opened LockBytecode
  import opened LockCompiler
  import opened LockDecompile

  /** The instructions of a compiled lock, in the order in which they are stored. */
  function Stored(n: Node): seq<Insn> {
    Skeleton(Assemble(n).insns)
  }

  /** The place of the `i`-th stored instruction in code that has labels. */
  function Place(code: seq<Insn>, i: nat): (k: nat)
    requires i < |Skeleton(code)|
    ensures k < |code| && code[k].op != LABEL
  {
    if code[0].op == LABEL then 1 + Place(code[1..], i) else if i == 0 then 0 else 1 + Place(code[1..], i - 1)
  }

  lemma {:induction false} RealTail(code: seq<Insn>, j: nat)
    requires |code| > 0
    ensures Real(code[1..], j) == Real(code, j + 1)
    decreases |code| - j
  {
    if j < |code[1..]| { RealTail(code, j + 1); }
  }

  lemma {:induction false} PlaceIs(code: seq<Insn>, i: nat)
    requires i < |Skeleton(code)|
    ensures var insn := code[Place(code, i)];
            Skeleton(code)[i] == (if IsJump(insn.op) then Insn(insn.op, 0) else insn)
    ensures Before(code, Place(code, i)) == i
    decreases code
  {
    var rest, step := code[1..], if code[0].op == LABEL then 0 else 1;
    if i >= step {
      var k := Place(rest, i - step);
      PlaceNext(code, i, step);
      PlaceIs(rest, i - step);
      BeforeNext(code, k);
    } else {
      assert Place(code, 0) == 0;
      hide Place;
      assert Before(code, 0) == 0;
    }
  }

  lemma PlaceNext(code: seq<Insn>, i: nat, step: nat)
    requires i < |Skeleton(code)| && step == (if code[0].op == LABEL then 0 else 1) <= i
    ensures i - step < |Skeleton(code[1..])| && Skeleton(code)[i] == Skeleton(code[1..])[i - step]
    ensures Place(code, i) == 1 + Place(code[1..], i - step)
  {
  }

  lemma BeforeNext(code: seq<Insn>, k: nat)
    requires |code| > 0 && k <= |code[1..]|
    ensures Before(code, k + 1) == Before(code[1..], k) + if code[0].op == LABEL then 0 else 1
  {
    RealTail(code, 0);
    RealTail(code, k);
  }

  lemma {:induction false} SkeletonLength(code: seq<Insn>)
    ensures |Skeleton(code)| == Real(code, 0)
  {
    if code != [] {
      SkeletonLength(code[1..]);
      RealTail(code, 0);
    }
  }

  /** The `i`-th stored instruction is at byte 5i. */
  predicate StoredAt(bytes: seq<Byte>, strs: seq<Text>, insn: Insn, pc: int) {
    && InsnAt(bytes, pc) && !BadOp(bytes[pc]) && OpAt(bytes, pc) == insn.op
    && (HasString(insn.op) ==> CStringAt(bytes, ArgAt(bytes, pc)) == StringNo(strs, insn.arg))
    && (!HasString(insn.op) && !IsJump(insn.op) ==> ArgAt(bytes, pc) == insn.arg)
  }

  lemma StoredIs(n: Node, i: nat)
    requires Compilable(n) && i < |Stored(n)|
    ensures StoredAt(Compile(n), Assemble(n).strs, Stored(n)[i], i * INSN_LEN)
  {
    AssembleEmittable(n);
    assert Stored(n) == Skeleton(Assemble(n).insns) && Compile(n) == Emit(Assemble(n).insns, Assemble(n).strs);
    hide Stored, Compile, Assemble, Skeleton, Emittable, Emit;
    var code, strs := Assemble(n).insns, Assemble(n).strs;
    PlaceIs(code, i);
    EmittedInsn(code, strs, Place(code, i));
    hide StringNo, CStringAt, OpAt, ArgAt, HasString;
  }

  /** An emitted instruction, with its string if it has one. */
  lemma EmittedInsn(code: seq<Insn>, strs: seq<Text>, k: nat)
    requires Emittable(code, strs) && k < |code| && code[k].op != LABEL
    ensures StoredAt(Emit(code, strs), strs, if IsJump(code[k].op) then Insn(code[k].op, 0) else code[k], Before(code, k) * INSN_LEN)
  {
    hide Emittable, Emit, OpAt, ArgAt, CStringAt, EmitFrom, StringSection, StringOffset, Real, Before, BadOp,
         PosOfLabel;
    DecodeInsn(code, strs, k);
    if HasString(code[k].op) {
      StringNumber(code, strs, k);
      EmittedString(code, strs, code[k].arg);
    }
  }

  lemma StringNumber(code: seq<Insn>, strs: seq<Text>, k: nat)
    requires Emittable(code, strs) && k < |code| && HasString(code[k].op)
    ensures 0 <= code[k].arg < |strs| && AllNulFree(strs)
  {
    hide Emit, UniqueLabels, JumpsResolved, ArgsFit;
    assert StringReady(code, k, 0, |strs|);
  }

  /** Stored code is that of the rewritten tree without its labels. */
  lemma StoredShape(n: Node)
    ensures Stored(n) == Bare(Gen(Asm([], [], 0), Optimize(n), Alone)) + [Insn(RET, 0)]
    ensures Assemble(n).strs == Gen(Asm([], [], 0), Optimize(n), Alone).strs
  {
    var m := Optimize(n);
    GenerateThreadable(m);
    ThreadSkeleton(Generate(m).insns, Generate(m).labels, 0);
    BareAppend(Gen(Asm([], [], 0), m, Alone), RET, 0);
  }

  /** The only RET is the last stored instruction. */
  lemma StoredEnds(n: Node)
    ensures |Stored(n)| > 0
    ensures forall i :: 0 <= i < |Stored(n)| ==> (Stored(n)[i].op == RET <==> i == |Stored(n)| - 1)
  {
    StoredShape(n);
    var a := Gen(Asm([], [], 0), Optimize(n), Alone);
    GenStrings(Asm([], [], 0), Optimize(n), Alone);
    forall i | 0 <= i < |Bare(a)| ensures Bare(a)[i].op != RET {
      PlaceIs(a.insns, i);
      assert StringReady(a.insns, Place(a.insns, i), 0, |a.strs|);
    }
  }
}
