/** Replacing the tests of destroyed objects in a lock's bytecode by #false. */
module LockCleanup {
  import opened Bytes
  import opened LockTree
  import opened LockAsm
  import opened LockBytecode
  import opened LockCompiler
  import opened LockStored

  /** A test that names a destroyed object. */
  predicate Doomed(op: Op, arg: int, garbage: int -> bool) {
    (op == TCONST || op == TCARRY || op == TIS || op == TOWNER || op == TIND) && garbage(arg)
  }

  /** The bytes with the instruction at `pc` replaced by a load of #false. */
  function Overwrite(bytes: seq<Byte>, pc: int): seq<Byte>
    requires InsnAt(bytes, pc)
  {
    bytes[..pc] + [OpNumber(LOADR), 0, 0, 0, 0] + bytes[pc + INSN_LEN..]
  }

  function Cleaned(bytes: seq<Byte>, garbage: int -> bool, pc: int): seq<Byte>
    decreases |bytes| - pc
  {
    if !InsnAt(bytes, pc) || OpAt(bytes, pc) == RET then bytes
    else Cleaned(if Doomed(OpAt(bytes, pc), ArgAt(bytes, pc), garbage) then Overwrite(bytes, pc) else bytes, garbage, pc + INSN_LEN)
  }

  /** Stepping from `pc`, a RET is reached inside the first `blen` bytes. */
  predicate EndsBy(bytes: seq<Byte>, blen: nat, pc: int)
    decreases |bytes| - pc
  {
    InsnAt(bytes, pc) && pc + INSN_LEN <= blen && (OpAt(bytes, pc) != RET ==> EndsBy(bytes, blen, pc + INSN_LEN))
  }

  lemma {:induction false} EndsByFrame(bytes: seq<Byte>, other: seq<Byte>, blen: nat, pc: int)
    requires EndsBy(bytes, blen, pc)
    requires |other| == |bytes| && other[pc..] == bytes[pc..]
    ensures EndsBy(other, blen, pc)
    decreases |bytes| - pc
  {
    assert other[pc..][0] == bytes[pc..][0];
    if OpAt(bytes, pc) != RET {
      assert other[pc..][INSN_LEN..] == other[pc + INSN_LEN..] && bytes[pc..][INSN_LEN..] == bytes[pc + INSN_LEN..];
      EndsByFrame(bytes, other, blen, pc + INSN_LEN);
    }
  }

  lemma OverwriteAt(bytes: seq<Byte>, pc: int)
    requires InsnAt(bytes, pc)
    ensures var b := Overwrite(bytes, pc);
            && |b| == |bytes| && b[pc] == OpNumber(LOADR) && b[pc + 1..pc + INSN_LEN] == [0, 0, 0, 0]
            && (forall k :: 0 <= k < |bytes| && !(pc <= k < pc + INSN_LEN) ==> b[k] == bytes[k])
            && b[pc + INSN_LEN..] == bytes[pc + INSN_LEN..]
  {
  }

  method CleanupBoolexp(a: array<Byte>, ghost blen: nat, garbage: int -> bool) returns (revised: bool)
    requires EndsBy(a[..], blen, 0)
    modifies a
    ensures a[..] == Cleaned(old(a[..]), garbage, 0)
    ensures revised <==> a[..] != old(a[..])
  {
    hide OpAt, ArgAt, Cleaned, EndsBy, Doomed;
    var pc := 0;
    revised := false;
    ghost var a0 := a[..];
    EndsByMeans(a0, blen, 0);
    while OpAt(a[..], pc) != RET
      invariant EndsBy(a[..], blen, pc) && pc >= 0 && InsnAt(a[..], pc)
      invariant Cleaned(a[..], garbage, pc) == Cleaned(a0, garbage, 0)
      invariant a[pc..] == a0[pc..]
      invariant revised <==> a[..] != a0
      decreases a.Length - pc
    {
      ghost var b := a[..];
      CleanedStep(b, garbage, pc);
      EndsByMeans(b, blen, pc);
      EndsByMeans(b, blen, pc + INSN_LEN);
      if Doomed(OpAt(a[..], pc), ArgAt(a[..], pc), garbage) {
        revised := true;
        DoomedDiffers(b, pc, garbage);
        OverwriteAt(b, pc);
        a[pc], a[pc + 1], a[pc + 2], a[pc + 3], a[pc + 4] := OpNumber(LOADR), 0, 0, 0, 0;
        assert a[..] == Overwrite(b, pc);
        EndsByFrame(b, a[..], blen, pc + INSN_LEN);
        EndsByMeans(a[..], blen, pc + INSN_LEN);
        assert b[pc..][0] == a0[pc..][0];
      }
      assert b[pc..][INSN_LEN..] == a0[pc..][INSN_LEN..];
      pc := pc + INSN_LEN;
    }
    CleanedStep(a[..], garbage, pc);
  }

  lemma DoomedDiffers(bytes: seq<Byte>, pc: int, garbage: int -> bool)
    requires InsnAt(bytes, pc) && Doomed(OpAt(bytes, pc), ArgAt(bytes, pc), garbage)
    ensures bytes[pc] != OpNumber(LOADR)
  {
  }

  lemma EndsByMeans(bytes: seq<Byte>, blen: nat, pc: int)
    requires EndsBy(bytes, blen, pc)
    ensures InsnAt(bytes, pc) && (OpAt(bytes, pc) != RET ==> EndsBy(bytes, blen, pc + INSN_LEN))
  {
  }

  lemma CleanedStep(bytes: seq<Byte>, garbage: int -> bool, pc: int)
    requires InsnAt(bytes, pc)
    ensures Cleaned(bytes, garbage, pc) ==
            if OpAt(bytes, pc) == RET then bytes
            else Cleaned(if Doomed(OpAt(bytes, pc), ArgAt(bytes, pc), garbage) then Overwrite(bytes, pc) else bytes, garbage, pc + INSN_LEN)
  {
    hide OpAt, ArgAt, Doomed, Overwrite;
  }

  // ----- Cleaning up keeps the meaning

  lemma {:induction false} CStringFrame(bytes: seq<Byte>, other: seq<Byte>, blen: nat, a: int)
    requires |bytes| == |other| && (forall k :: blen <= k < |bytes| ==> bytes[k] == other[k]) && blen <= a
    ensures CStringAt(bytes, a) == CStringAt(other, a)
    decreases |bytes| - a
  {
    if a < |bytes| && bytes[a] != 0 { CStringFrame(bytes, other, blen, a + 1); }
  }

  /** A test looks at no string it does not need. */
  lemma TestNeeds<S>(w: World<S>, op: Op, arg: int, name: Text, name': Text, text: Text, text': Text, r: bool, s: S)
    requires UsesS(op) ==> name == name'
    requires HasString(op) ==> text == text'
    ensures Test(w, op, arg, name, text, r, s) == Test(w, op, arg, name', text', r, s)
  {
  }

  /** `x` is not a live object, whatever happens. */
  ghost predicate Dead<S(!new)>(w: World<S>, x: int) {
    forall st: S :: !w.live(st, x)
  }

  /** The instruction at `q` tests an object that is not there. */
  ghost predicate DeadTest<S(!new)>(w: World<S>, bytes: seq<Byte>, blen: nat, q: int) {
    && q % INSN_LEN == 0 && 0 <= q && q + INSN_LEN <= blen <= |bytes|
    && Doomed(OpAt(bytes, q), ArgAt(bytes, q), x => true) && Dead(w, ArgAt(bytes, q))
  }

  lemma OverwriteElsewhere(bytes: seq<Byte>, q: int, pc: int)
    requires InsnAt(bytes, q) && InsnAt(bytes, pc) && pc != q && q % INSN_LEN == 0 && pc % INSN_LEN == 0
    ensures var b := Overwrite(bytes, q);
            InsnAt(b, pc) && b[pc] == bytes[pc] && OpAt(b, pc) == OpAt(bytes, pc) && ArgAt(b, pc) == ArgAt(bytes, pc)
  {
    assert pc + INSN_LEN <= q || q + INSN_LEN <= pc;
    OverwriteAt(bytes, q);
    assert Overwrite(bytes, q)[pc + 1..pc + INSN_LEN] == bytes[pc + 1..pc + INSN_LEN];
  }

  lemma OverwriteHere(bytes: seq<Byte>, q: int)
    requires InsnAt(bytes, q)
    ensures var b := Overwrite(bytes, q); InsnAt(b, q) && !BadOp(b[q]) && OpAt(b, q) == LOADR && ArgAt(b, q) == 0
  {
    assert DecodeInt([0, 0, 0, 0]) == 0;
    OverwriteAt(bytes, q);
  }

  lemma StringStartsFrame(bytes: seq<Byte>, q: int, blen: nat, a: int)
    requires InsnAt(bytes, q) && q + INSN_LEN <= blen && StringStarts(bytes, blen, a)
    ensures StringStarts(Overwrite(bytes, q), blen, a)
  {
    OverwriteAt(bytes, q);
    var k :| a <= k < |bytes| && bytes[k] == 0;
    assert Overwrite(bytes, q)[k] == 0;
  }

  lemma OverwriteSafe<S>(bytes: seq<Byte>, blen: nat, q: int, v: Vm<S>)
    requires SafeHere(bytes, blen, v)
    requires q % INSN_LEN == 0 && 0 <= q && q + INSN_LEN <= blen && OpAt(bytes, q) != LOADS
    ensures SafeHere(Overwrite(bytes, q), blen, v)
  {
    assert |Overwrite(bytes, q)| == |bytes| by { OverwriteAt(bytes, q); }
    hide OpAt, ArgAt, Overwrite, StringStarts, BadOp;
    if v.pc == q {
      OverwriteHere(bytes, q);
    } else {
      OverwriteSafeElsewhere(bytes, blen, q, v);
    }
  }

  lemma OverwriteSafeElsewhere<S>(bytes: seq<Byte>, blen: nat, q: int, v: Vm<S>)
    requires SafeHere(bytes, blen, v) && v.pc != q
    requires q % INSN_LEN == 0 && 0 <= q && q + INSN_LEN <= blen && OpAt(bytes, q) != LOADS
    requires |Overwrite(bytes, q)| == |bytes|
    ensures SafeHere(Overwrite(bytes, q), blen, v)
  {
    hide OpAt, ArgAt, Overwrite, StringStarts, BadOp;
    OverwriteElsewhere(bytes, q, v.pc);
    if HasString(OpAt(bytes, v.pc)) { StringStartsFrame(bytes, q, blen, ArgAt(bytes, v.pc)); }
    if UsesS(OpAt(bytes, v.pc)) { OverwriteSafeS(bytes, blen, q, v); }
  }

  lemma OverwriteSafeS<S>(bytes: seq<Byte>, blen: nat, q: int, v: Vm<S>)
    requires SafeHere(bytes, blen, v) && UsesS(OpAt(bytes, v.pc))
    requires q % INSN_LEN == 0 && 0 <= q && q + INSN_LEN <= blen && OpAt(bytes, q) != LOADS
    ensures var b := Overwrite(bytes, q);
            && InsnAt(b, v.pc - INSN_LEN) && OpAt(b, v.pc - INSN_LEN) == LOADS
            && v.s == ArgAt(b, v.pc - INSN_LEN) && StringStarts(b, blen, v.s)
  {
    hide OpAt, ArgAt, Overwrite, StringStarts, BadOp;
    OverwriteElsewhere(bytes, q, v.pc - INSN_LEN);
    StringStartsFrame(bytes, q, blen, v.s);
  }

  lemma OverwriteStep<S(!new)>(w: World<S>, bytes: seq<Byte>, blen: nat, q: int, v: Vm<S>)
    requires SafeHere(bytes, blen, v) && DeadTest(w, bytes, blen, q) && OpAt(bytes, v.pc) != RET
    ensures VmStep(w, Overwrite(bytes, q), v) == VmStep(w, bytes, v)
  {
    if v.pc == q {
      OverwriteHere(bytes, q);
      assert !w.live(v.st, ArgAt(bytes, q));
      hide CStringAt, Overwrite, ArgAt;
    } else {
      OverwriteStepElsewhere(w, bytes, blen, q, v);
    }
  }

  lemma OverwriteStepElsewhere<S>(w: World<S>, bytes: seq<Byte>, blen: nat, q: int, v: Vm<S>)
    requires SafeHere(bytes, blen, v) && OpAt(bytes, v.pc) != RET && v.pc != q
    requires q % INSN_LEN == 0 && 0 <= q && q + INSN_LEN <= blen
    ensures VmStep(w, Overwrite(bytes, q), v) == VmStep(w, bytes, v)
  {
    var b := Overwrite(bytes, q);
    OverwriteElsewhere(bytes, q, v.pc);
    OverwriteAt(bytes, q);
    hide OpAt, ArgAt, Overwrite, CStringAt, Test, BadOp;
    var op, arg := OpAt(bytes, v.pc), ArgAt(bytes, v.pc);
    if HasString(op) { CStringFrame(bytes, b, blen, arg); }
    if UsesS(op) { CStringFrame(bytes, b, blen, v.s); }
    TestNeeds(w, op, arg, CStringAt(bytes, v.s), CStringAt(b, v.s), CStringAt(bytes, arg), CStringAt(b, arg), v.r, v.st);
  }

  /** With one test of a destroyed object replaced, the lock runs as before. */
  lemma {:induction false} OverwriteRuns<S(!new)>(w: World<S>, bytes: seq<Byte>, blen: nat, q: int, v: Vm<S>)
    requires SafeRun(w, bytes, blen, v) && DeadTest(w, bytes, blen, q)
    ensures RunBytes(w, Overwrite(bytes, q), v) == RunBytes(w, bytes, v)
    ensures SafeRun(w, Overwrite(bytes, q), blen, v)
    decreases |bytes| - v.pc
  {
    OverwriteSafe(bytes, blen, q, v);
    if v.pc != q { OverwriteElsewhere(bytes, q, v.pc); } else { OverwriteHere(bytes, q); }
    OverwriteAt(bytes, q);
    if OpAt(bytes, v.pc) != RET {
      OverwriteStep(w, bytes, blen, q, v);
      OverwriteRuns(w, bytes, blen, q, VmStep(w, bytes, v));
    }
  }

  lemma {:induction false} CleanedRuns<S(!new)>(w: World<S>, bytes: seq<Byte>, blen: nat, garbage: int -> bool,
          pc: int, v: Vm<S>)
    requires SafeRun(w, bytes, blen, v) && EndsBy(bytes, blen, pc) && pc >= 0 && pc % INSN_LEN == 0
    requires forall x :: garbage(x) ==> Dead(w, x)
    ensures RunBytes(w, Cleaned(bytes, garbage, pc), v) == RunBytes(w, bytes, v)
    ensures SafeRun(w, Cleaned(bytes, garbage, pc), blen, v)
    decreases |bytes| - pc
  {
    hide RunBytes, SafeRun;
    if OpAt(bytes, pc) != RET {
      if Doomed(OpAt(bytes, pc), ArgAt(bytes, pc), garbage) {
        assert blen <= |bytes| by { SafeRunFits(w, bytes, blen, v); }
        OverwriteRuns(w, bytes, blen, pc, v);
        OverwriteAt(bytes, pc);
        EndsByFrame(bytes, Overwrite(bytes, pc), blen, pc + INSN_LEN);
        hide Overwrite;
        CleanedRuns(w, Overwrite(bytes, pc), blen, garbage, pc + INSN_LEN, v);
      } else {
        CleanedRuns(w, bytes, blen, garbage, pc + INSN_LEN, v);
      }
    }
  }

  lemma SafeRunFits<S>(w: World<S>, bytes: seq<Byte>, blen: nat, v: Vm<S>)
    requires SafeRun(w, bytes, blen, v)
    ensures blen <= |bytes|
  {
  }

  // ----- And leaves no test of a destroyed object behind

  predicate NoDoomed(bytes: seq<Byte>, garbage: int -> bool, pc: int)
    decreases |bytes| - pc
  {
    InsnAt(bytes, pc) && OpAt(bytes, pc) != RET ==>
      !Doomed(OpAt(bytes, pc), ArgAt(bytes, pc), garbage) && NoDoomed(bytes, garbage, pc + INSN_LEN)
  }

  /** Cleaning from `pc` on leaves what is before `pc` alone. */
  lemma {:induction false} CleanedBefore(bytes: seq<Byte>, garbage: int -> bool, pc: int)
    ensures |Cleaned(bytes, garbage, pc)| == |bytes|
    ensures forall k :: 0 <= k < pc && k < |bytes| ==> Cleaned(bytes, garbage, pc)[k] == bytes[k]
    decreases |bytes| - pc
  {
    if InsnAt(bytes, pc) && OpAt(bytes, pc) != RET {
      OverwriteAt(bytes, pc);
      CleanedBefore(bytes, garbage, pc + INSN_LEN);
      CleanedBefore(Overwrite(bytes, pc), garbage, pc + INSN_LEN);
    }
  }

  lemma {:induction false} CleanedLeavesNone(bytes: seq<Byte>, garbage: int -> bool, pc: int)
    requires pc >= 0
    ensures NoDoomed(Cleaned(bytes, garbage, pc), garbage, pc)
    decreases |bytes| - pc
  {
    if InsnAt(bytes, pc) && OpAt(bytes, pc) != RET {
      var b := if Doomed(OpAt(bytes, pc), ArgAt(bytes, pc), garbage) then Overwrite(bytes, pc) else bytes;
      OverwriteAt(bytes, pc);
      OverwriteHere(bytes, pc);
      CleanedLeavesNone(b, garbage, pc + INSN_LEN);
      CleanedKeepsInsn(b, garbage, pc);
      hide Overwrite, OpAt, ArgAt;
    }
  }

  lemma CleanedKeepsInsn(b: seq<Byte>, garbage: int -> bool, pc: int)
    requires InsnAt(b, pc)
    ensures var c := Cleaned(b, garbage, pc + INSN_LEN); InsnAt(c, pc) && OpAt(c, pc) == OpAt(b, pc) && ArgAt(c, pc) == ArgAt(b, pc)
  {
    CleanedBefore(b, garbage, pc + INSN_LEN);
    var c := Cleaned(b, garbage, pc + INSN_LEN);
    assert c[pc + 1..pc + INSN_LEN] == b[pc + 1..pc + INSN_LEN];
  }

  // ----- For compiled locks

  lemma {:induction false} CompiledEnds(n: Node, i: nat)
    requires Compilable(n) && i < |Stored(n)|
    ensures EndsBy(Compile(n), CodeLength(n), i * INSN_LEN)
    decreases |Stored(n)| - i
  {
    hide Stored, Compile, CodeLength, CStringAt, StringNo, OpAt, ArgAt, HasString;
    StoredIs(n, i);
    StoredEnds(n);
    StoredCount(n);
    if Stored(n)[i].op != RET { CompiledEnds(n, i + 1); }
  }

  lemma StoredCount(n: Node)
    ensures |Stored(n)| * INSN_LEN == CodeLength(n)
  {
    SkeletonLength(Assemble(n).insns);
  }

  /** Cleaning up a compiled lock changes neither what it decides nor what it
      asks, in any world in which the destroyed objects are indeed not live;
      and none of them is tested any more. */
  lemma CleanupMeaning<S(!new)>(w: World<S>, n: Node, garbage: int -> bool, s: S)
    requires Compilable(n)
    requires forall x :: garbage(x) ==> Dead(w, x)
    ensures RunBytes(w, Cleaned(Compile(n), garbage, 0), Vm(0, false, -1, s)) == EvalNode(w, n, false, s)
    ensures NoDoomed(Cleaned(Compile(n), garbage, 0), garbage, 0)
    ensures EndsBy(Compile(n), CodeLength(n), 0)
  {
    hide Compile, Stored, RunBytes, SafeRun, EvalNode;
    CompileCorrect(w, n, s);
    StoredEnds(n);
    CompiledEnds(n, 0);
    CleanedRuns(w, Compile(n), CodeLength(n), garbage, 0, Vm(0, false, -1, s));
    CleanedLeavesNone(Compile(n), garbage, 0);
  }

  // ----- Locks that are cleaned up again and again

  /** The bytes after one cleanup after another. */
  function CleanedAll(bytes: seq<Byte>, gs: seq<int -> bool>): seq<Byte> {
    if gs == [] then bytes else Cleaned(CleanedAll(bytes, gs[..|gs| - 1]), gs[|gs| - 1], 0)
  }

  /** What each cleanup took to be destroyed is never a live object. */
  ghost predicate AllDead<S(!new)>(live: (S, int) -> bool, gs: seq<int -> bool>) {
    forall j, x, st: S :: 0 <= j < |gs| && gs[j](x) ==> !live(st, x)
  }

  lemma {:induction false} CleanedEnds(bytes: seq<Byte>, garbage: int -> bool, blen: nat, pc: int)
    requires EndsBy(bytes, blen, pc) && pc >= 0
    ensures EndsBy(Cleaned(bytes, garbage, pc), blen, pc)
    decreases |bytes| - pc
  {
    hide OpAt, ArgAt, Doomed, Overwrite, Cleaned;
    EndsByMeans(bytes, blen, pc);
    CleanedStep(bytes, garbage, pc);
    if OpAt(bytes, pc) != RET {
      var b := if Doomed(OpAt(bytes, pc), ArgAt(bytes, pc), garbage) then Overwrite(bytes, pc) else bytes;
      OverwriteAt(bytes, pc);
      OverwriteHere(bytes, pc);
      EndsByFrame(bytes, b, blen, pc + INSN_LEN);
      CleanedEnds(b, garbage, blen, pc + INSN_LEN);
      CleanedKeepsInsn(b, garbage, pc);
    }
  }

  /** Any number of cleanups keep the meaning of a compiled lock, and keep the
      machine safe. */
  lemma {:induction false} CleanupsMeaning<S(!new)>(w: World<S>, n: Node, gs: seq<int -> bool>, s: S)
    requires Compilable(n) && AllDead(w.live, gs)
    ensures var c := CleanedAll(Compile(n), gs);
            && RunBytes(w, c, Vm(0, false, -1, s)) == EvalNode(w, n, false, s)
            && SafeRun(w, c, CodeLength(n), Vm(0, false, -1, s)) && EndsBy(c, CodeLength(n), 0)
    decreases |gs|
  {
    hide Compile, Stored, RunBytes, SafeRun, EvalNode, EndsBy, Cleaned;
    if gs == [] {
      CompileCorrect(w, n, s);
      StoredEnds(n);
      CompiledEnds(n, 0);
    } else {
      var last := |gs| - 1;
      CleanupsMeaning(w, n, gs[..last], s);
      var c := CleanedAll(Compile(n), gs[..last]);
      forall x | gs[last](x) ensures Dead(w, x) {
      }
      CleanedRuns(w, c, CodeLength(n), gs[last], 0, Vm(0, false, -1, s));
      CleanedEnds(c, gs[last], CodeLength(n), 0);
    }
  }
}
