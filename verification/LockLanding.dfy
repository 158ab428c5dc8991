/** Where jumps end up.  Jump threading changes where each jump goes, but not
    where a run of jumps gets to; so the bytes of a lock depend on nothing else. */
module LockLanding {
  import opened Bytes
  import opened LockAsm
  import opened JumpThreading
  import opened LockBytecode

  /** The number of instructions left at the one that a jump of kind `op` gets to
      from `i`, following jumps of its kind and passing those of the other. */
  function Lands(code: seq<Insn>, i: nat, op: Op): nat
    decreases |code| - i
  {
    if i >= |code| then 0
    else if code[i].op == LABEL then Lands(code, i + 1, op)
    else if !IsJump(code[i].op) then Real(code, i)
    else if code[i].op != op then Lands(code, i + 1, op)
    else
      var k := LabelPos(code, code[i].arg);
      if k > i then Lands(code, k, op) else Real(code, i)
  }

  /** An instruction, with where it ends up for its argument if it is a jump. */
  function Cell(code: seq<Insn>, i: nat): Insn
    requires i < |code|
  {
    Insn(code[i].op, if IsJump(code[i].op) then Lands(code, i, code[i].op) else code[i].arg)
  }

  /** The instructions from `i` on like that, without labels. */
  function Landed(code: seq<Insn>, i: nat): (cells: seq<Insn>)
    ensures |cells| == Real(code, i)
    decreases |code| - i
  {
    if i >= |code| then []
    else if code[i].op == LABEL then Landed(code, i + 1)
    else [Cell(code, i)] + Landed(code, i + 1)
  }

  // ----- Threading does not change it

  lemma {:induction false} LandsSkips(code: seq<Insn>, i: nat, op: Op)
    ensures Lands(code, SkipLabels(code, i), op) == Lands(code, i, op)
    decreases |code| - i
  {
    if i < |code| && code[i].op == LABEL { LandsSkips(code, i + 1, op); }
  }

  /** One turn of following jumps. */
  lemma LandsStep(code: seq<Insn>, i: nat, op: Op)
    requires i < |code|
    ensures Lands(code, i, op) ==
            if code[i].op == LABEL then Lands(code, i + 1, op)
            else if !IsJump(code[i].op) then Real(code, i)
            else if code[i].op != op then Lands(code, i + 1, op)
            else if LabelPos(code, code[i].arg) > i then Lands(code, LabelPos(code, code[i].arg), op)
            else Real(code, i)
  {
  }

  lemma {:induction false} RedirectLands(code: seq<Insn>, n: nat, l: int, i: nat, op: Op)
    requires n < |code| && IsJump(code[n].op) && n < LabelPos(code, l) && n < LabelPos(code, code[n].arg)
    requires Lands(code, LabelPos(code, l), code[n].op) == Lands(code, LabelPos(code, code[n].arg), code[n].op)
    ensures Lands(Redirect(code, n, l), i, op) == Lands(code, i, op)
    decreases |code| - i
  {
    if i < |code| {
      var code' := Redirect(code, n, l);
      LandsStep(code, i, op);
      LandsStep(code', i, op);
      RealRedirect(code, n, l, i);
      hide Lands, Real, LabelPos;
      if code[i].op == LABEL || (IsJump(code[i].op) && code[i].op != op) {
        RedirectLands(code, n, l, i + 1, op);
      } else if IsJump(code[i].op) {
        LabelPosRedirect(code, n, l, code'[i].arg);
        if LabelPos(code, code'[i].arg) > i { RedirectLands(code, n, l, LabelPos(code, code'[i].arg), op); }
      }
    }
  }

  /** One turn of following jumps once a label has been put in behind `t`. */
  lemma InsertLandsStep(code: seq<Insn>, t: nat, l: int, i: nat, op: Op)
    requires t < |code| && code[t].op != LABEL && i < |code| && (IsJump(code[i].op) ==> code[i].arg != l)
    ensures Lands(InsertLabel(code, t, l), Moved(t, i), op) ==
            if code[i].op == LABEL || (IsJump(code[i].op) && code[i].op != op) then Lands(InsertLabel(code, t, l), Moved(t, i + 1), op)
            else if IsJump(code[i].op) && LabelPos(code, code[i].arg) > i
            then Lands(InsertLabel(code, t, l), Moved(t, LabelPos(code, code[i].arg)), op)
            else Real(code, i)
  {
    var ins, i' := InsertLabel(code, t, l), Moved(t, i);
    InsertAt(code, t, l, i);
    LandsStep(ins, i', op);
    RealInsert(code, t, l, i);
    if i == t { LandsStep(ins, t + 1, op); }
    if IsJump(code[i].op) {
      LabelPosInsert(code, t, l, code[i].arg);
      MovedAt(code, t, i, LabelPos(code, code[i].arg));
    }
    hide Lands, Real, LabelPos, InsertLabel;
  }

  lemma {:induction false} InsertLands(code: seq<Insn>, t: nat, l: int, i: nat, op: Op)
    requires t < |code| && code[t].op != LABEL
    requires forall j :: 0 <= j < |code| && IsJump(code[j].op) ==> code[j].arg != l
    ensures Lands(InsertLabel(code, t, l), Moved(t, i), op) == Lands(code, i, op)
    decreases |code| - i
  {
    if i < |code| {
      LandsStep(code, i, op);
      InsertLandsStep(code, t, l, i, op);
      hide Lands, Real, LabelPos, InsertLabel, Moved;
      if code[i].op == LABEL || (IsJump(code[i].op) && code[i].op != op) {
        InsertLands(code, t, l, i + 1, op);
      } else if IsJump(code[i].op) && LabelPos(code, code[i].arg) > i {
        InsertLands(code, t, l, LabelPos(code, code[i].arg), op);
      }
    } else {
      InsertAt(code, t, l, i);
      hide Lands;
      LandsEnd(code, i, op);
      LandsEnd(InsertLabel(code, t, l), Moved(t, i), op);
    }
  }

  lemma LandsEnd(code: seq<Insn>, i: nat, op: Op)
    requires i >= |code|
    ensures Lands(code, i, op) == 0
  {
  }

  lemma {:induction false} RedirectLanded(code: seq<Insn>, n: nat, l: int, i: nat)
    requires n < |code| && IsJump(code[n].op) && n < LabelPos(code, l) && n < LabelPos(code, code[n].arg)
    requires Lands(code, LabelPos(code, l), code[n].op) == Lands(code, LabelPos(code, code[n].arg), code[n].op)
    ensures Landed(Redirect(code, n, l), i) == Landed(code, i)
    decreases |code| - i
  {
    hide Lands, LabelPos, Landed;
    if i < |code| {
      RedirectLands(code, n, l, i, code[i].op);
      RedirectLanded(code, n, l, i + 1);
      LandedStep(code, i);
      LandedStep(Redirect(code, n, l), i);
    } else {
      LandedEnd(code, i);
      LandedEnd(Redirect(code, n, l), i);
    }
  }

  lemma {:induction false} InsertLanded(code: seq<Insn>, t: nat, l: int, i: nat)
    requires t < |code| && code[t].op != LABEL
    requires forall j :: 0 <= j < |code| && IsJump(code[j].op) ==> code[j].arg != l
    ensures Landed(InsertLabel(code, t, l), Moved(t, i)) == Landed(code, i)
    decreases |code| - i
  {
    hide *;
    if i < |code| {
      LandedStep(code, i);
      LandedMoved(code, t, l, i);
      InsertLanded(code, t, l, i + 1);
    } else {
      InsertLandedEnd(code, t, l, i);
    }
  }

  lemma InsertLandedEnd(code: seq<Insn>, t: nat, l: int, i: nat)
    requires t < |code| <= i
    ensures Landed(InsertLabel(code, t, l), Moved(t, i)) == Landed(code, i)
  {
    MovedAt(code, t, i, i);
    InsertAt(code, t, l, i);
    hide Landed, InsertLabel;
    LandedEnd(code, i);
    LandedEnd(InsertLabel(code, t, l), Moved(t, i));
  }

  lemma LandedMoved(code: seq<Insn>, t: nat, l: int, i: nat)
    requires t < |code| && code[t].op != LABEL && i < |code|
    requires forall j :: 0 <= j < |code| && IsJump(code[j].op) ==> code[j].arg != l
    ensures var ins := InsertLabel(code, t, l);
            Landed(ins, Moved(t, i)) ==
            if code[i].op == LABEL then Landed(ins, Moved(t, i + 1)) else [Cell(code, i)] + Landed(ins, Moved(t, i + 1))
  {
    hide *;
    var ins := InsertLabel(code, t, l);
    CellInserted(code, t, l, i);
    LandedStep(ins, Moved(t, i));
    if i == t { LandedStep(ins, t + 1); }
  }

  lemma CellInserted(code: seq<Insn>, t: nat, l: int, i: nat)
    requires t < |code| && code[t].op != LABEL && i < |code|
    requires forall j :: 0 <= j < |code| && IsJump(code[j].op) ==> code[j].arg != l
    ensures var ins := InsertLabel(code, t, l);
            && |ins| == |code| + 1 && Moved(t, i) < |ins| && ins[t + 1].op == LABEL && ins[Moved(t, i)].op == code[i].op
            && Cell(ins, Moved(t, i)) == Cell(code, i) && Moved(t, i + 1) == Moved(t, i) + (if i == t then 2 else 1)
            && Moved(t, t) == t
  {
    InsertAt(code, t, l, i);
    InsertLands(code, t, l, i, code[i].op);
    hide Lands, InsertLabel;
  }

  lemma LandedEnd(code: seq<Insn>, i: nat)
    requires i >= |code|
    ensures Landed(code, i) == []
  {
  }

  lemma LandedStep(code: seq<Insn>, i: nat)
    requires i < |code|
    ensures Landed(code, i) ==
            if code[i].op == LABEL then Landed(code, i + 1)
            else [Cell(code, i)] + Landed(code, i + 1)
  {
    hide Cell;
  }

  lemma ThreadOnceLanded(code: seq<Insn>, labels: nat, n: nat)
    requires Threadable(code, labels) && n < |code| && LandsOnJump(code, n)
    ensures Landed(ThreadOnce(code, labels, n).0, 0) == Landed(code, 0)
  {
    var op, k := code[n].op, LabelPos(code, code[n].arg);
    var t := Target(code, code[n].arg);
    TargetAhead(code, labels, n);
    TargetAhead(code, labels, t);
    LandsSkips(code, k, op);
    LandsStep(code, t, op);
    hide Lands, Landed;
    if code[t].op == op {
      RedirectLanded(code, n, code[t].arg, 0);
    } else {
      BypassLanded(code, labels, n, t);
    }
  }

  lemma BypassLanded(code: seq<Insn>, labels: nat, n: nat, t: nat)
    requires Threadable(code, labels) && n < |code| && LandsOnJump(code, n) && n < t == Target(code, code[n].arg)
    requires n < LabelPos(code, code[n].arg) && code[t].op != code[n].op
    requires Lands(code, t, code[n].op) == Lands(code, LabelPos(code, code[n].arg), code[n].op) == Lands(code, t + 1, code[n].op)
    ensures Landed(Redirect(InsertLabel(code, t, labels), n, labels), 0) == Landed(code, 0)
  {
    BypassLands(code, labels, n, t);
    FreshLabel(code, labels);
    hide Lands, Landed, InsertLabel, LabelPos, Threadable, LandsOnJump, Target;
    InsertLanded(code, t, labels, 0);
    RedirectLanded(InsertLabel(code, t, labels), n, labels, 0);
  }

  /** The new label behind `t` leads where the jump gets to anyway. */
  lemma BypassLands(code: seq<Insn>, labels: nat, n: nat, t: nat)
    requires Threadable(code, labels) && n < |code| && LandsOnJump(code, n) && n < t == Target(code, code[n].arg)
    requires n < LabelPos(code, code[n].arg)
    requires Lands(code, LabelPos(code, code[n].arg), code[n].op) == Lands(code, t + 1, code[n].op)
    ensures var ins := InsertLabel(code, t, labels);
            && |ins| == |code| + 1 && ins[n] == code[n] && IsJump(ins[n].op) && code[t].op != LABEL
            && n < LabelPos(ins, labels) && n < LabelPos(ins, ins[n].arg)
            && Lands(ins, LabelPos(ins, labels), ins[n].op) == Lands(ins, LabelPos(ins, ins[n].arg), ins[n].op)
  {
    var ins, l := InsertLabel(code, t, labels), code[n].arg;
    FreshLabel(code, labels);
    InsertAt(code, t, labels, n);
    LabelPosFresh(code, t, labels);
    LabelPosInsert(code, t, labels, l);
    MovedAt(code, t, n, LabelPos(code, l));
    hide Lands, LabelPos, InsertLabel, Threadable;
    InsertLands(code, t, labels, LabelPos(code, l), code[n].op);
    InsertLands(code, t, labels, t + 1, code[n].op);
    LandsStep(ins, t + 1, code[n].op);
  }

  lemma FreshLabel(code: seq<Insn>, labels: nat)
    requires Threadable(code, labels)
    ensures forall j :: 0 <= j < |code| && IsJump(code[j].op) ==> code[j].arg != labels
    ensures LabelRange(code, 0, 0, labels)
  {
    forall j | 0 <= j < |code| && IsJump(code[j].op) ensures code[j].arg != labels { TargetAhead(code, labels, j); }
  }

  lemma {:induction false} ThreadLanded(code: seq<Insn>, labels: nat, n: nat)
    requires Threadable(code, labels)
    ensures Landed(Thread(code, labels, n).0, 0) == Landed(code, 0)
    decreases Real(code, n), LeadingLabels(code, n), Reach(code, n)
  {
    MovedToStep(code, labels, n, 0);
    if n < |code| {
      if LandsOnJump(code, n) {
        ThreadOnceThreadable(code, labels, n);
        ThreadOnceDecreases(code, labels, n);
        ThreadOnceLanded(code, labels, n);
        hide Landed, Thread, ThreadOnce;
        ThreadLanded(ThreadOnce(code, labels, n).0, ThreadOnce(code, labels, n).1, n);
      } else {
        ThreadLanded(code, labels, n + 1);
      }
    }
  }

  // ----- What is emitted

  /** The argument in the bytes of one instruction of `total`. */
  function LandedArg(insn: Insn, total: int, strs: seq<Text>): int {
    if IsJump(insn.op) then (total - insn.arg) * INSN_LEN
    else if HasString(insn.op) then total * INSN_LEN + StringOffset(strs, insn.arg)
    else insn.arg
  }

  function LandedInsn(insn: Insn, total: int, strs: seq<Text>): (b: seq<Byte>)
    ensures |b| == INSN_LEN
  {
    [OpNumber(insn.op)] + EncodeInt(LandedArg(insn, total, strs))
  }

  function LandedInsns(cells: seq<Insn>, total: int, strs: seq<Text>): (b: seq<Byte>)
    ensures |b| == |cells| * INSN_LEN
  {
    if cells == [] then [] else LandedInsn(cells[0], total, strs) + LandedInsns(cells[1..], total, strs)
  }

  function LandedBytes(cells: seq<Insn>, strs: seq<Text>): seq<Byte> {
    LandedInsns(cells, |cells|, strs) + StringSection(strs)
  }

  /** Once no jump lands on a jump, a jump ends up where it goes. */
  lemma LandsThere(code: seq<Insn>, i: nat)
    requires UniqueLabels(code) && JumpsResolved(code, 0) && i < |code| && IsJump(code[i].op) && !LandsOnJump(code, i)
    ensures Lands(code, i, code[i].op) == Real(code, 0) - PosOfLabel(code, code[i].arg)
  {
    var op, k := code[i].op, LabelPos(code, code[i].arg);
    JumpGoes(code, i);
    LandsSkips(code, k, op);
    RealSkips(code, k);
    LandsStep(code, i, op);
    hide Lands;
    var t := SkipLabels(code, k);
    if t < |code| { LandsStep(code, t, op); } else { LandsEnd(code, t, op); }
  }

  lemma {:induction false} EmitFromLanded(code: seq<Insn>, strs: seq<Text>, i: nat)
    requires UniqueLabels(code) && JumpsResolved(code, 0) && NoneLandOnJump(code, |code|)
    ensures EmitFrom(code, strs, i) == LandedInsns(Landed(code, i), Real(code, 0), strs)
    decreases |code| - i
  {
    hide *;
    if i >= |code| {
      EmitFromEnd(code, strs, i);
    } else {
      EmitFromLanded(code, strs, i + 1);
      NoneLandAt(code, i);
      if code[i].op == LABEL {
        LandedStep(code, i);
        EmitStep(code, strs, i);
      } else {
        EmitCellLanded(code, strs, i);
      }
    }
  }

  lemma EmitFromEnd(code: seq<Insn>, strs: seq<Text>, i: nat)
    requires i >= |code|
    ensures EmitFrom(code, strs, i) == LandedInsns(Landed(code, i), Real(code, 0), strs)
  {
    LandedEnd(code, i);
    hide Landed;
  }

  lemma EmitCellLanded(code: seq<Insn>, strs: seq<Text>, i: nat)
    requires UniqueLabels(code) && JumpsResolved(code, 0) && i < |code| && !LandsOnJump(code, i) && code[i].op != LABEL
    requires EmitFrom(code, strs, i + 1) == LandedInsns(Landed(code, i + 1), Real(code, 0), strs)
    ensures EmitFrom(code, strs, i) == LandedInsns(Landed(code, i), Real(code, 0), strs)
  {
    hide *;
    LandedStep(code, i);
    EmitStep(code, strs, i);
    CellLanded(code, strs, i);
    LandedCons(Cell(code, i), Landed(code, i + 1), Real(code, 0), strs);
  }

  lemma NoneLandAt(code: seq<Insn>, i: nat)
    requires NoneLandOnJump(code, |code|) && i < |code|
    ensures !LandsOnJump(code, i)
  {
    hide LandsOnJump;
  }

  lemma CellLanded(code: seq<Insn>, strs: seq<Text>, i: nat)
    requires UniqueLabels(code) && JumpsResolved(code, 0) && i < |code| && !LandsOnJump(code, i)
    ensures LandedInsn(Cell(code, i), Real(code, 0), strs) == EmitInsn(code, strs, code[i])
  {
    ArgLanded(code, strs, i);
    assert Cell(code, i).op == code[i].op;
    hide *;
    InsnLanded(code, strs, i, Cell(code, i), Real(code, 0));
  }

  lemma LandedCons(cell: Insn, cells: seq<Insn>, total: int, strs: seq<Text>)
    ensures LandedInsns([cell] + cells, total, strs) == LandedInsn(cell, total, strs) + LandedInsns(cells, total, strs)
  {
    hide LandedInsn;
    assert ([cell] + cells)[1..] == cells;
  }

  lemma EmitStep(code: seq<Insn>, strs: seq<Text>, i: nat)
    requires i < |code|
    ensures EmitFrom(code, strs, i) ==
            if code[i].op == LABEL then EmitFrom(code, strs, i + 1) else EmitInsn(code, strs, code[i]) + EmitFrom(code, strs, i + 1)
  {
    hide EmitInsn;
  }

  /** The cell of an instruction says what argument it is emitted with. */
  lemma ArgLanded(code: seq<Insn>, strs: seq<Text>, i: nat)
    requires UniqueLabels(code) && JumpsResolved(code, 0) && i < |code| && !LandsOnJump(code, i)
    ensures FinalArg(code, strs, code[i]) ==
            LandedArg(Cell(code, i), Real(code, 0), strs)
  {
    if IsJump(code[i].op) { LandsThere(code, i); }
  }

  lemma InsnLanded(code: seq<Insn>, strs: seq<Text>, i: nat, cell: Insn, total: int)
    requires i < |code| && cell.op == code[i].op && LandedArg(cell, total, strs) == FinalArg(code, strs, code[i])
    ensures LandedInsn(cell, total, strs) == EmitInsn(code, strs, code[i])
  {
    hide LandedArg, FinalArg, EncodeInt;
  }

  lemma EmitLanded(code: seq<Insn>, strs: seq<Text>)
    requires UniqueLabels(code) && JumpsResolved(code, 0) && NoneLandOnJump(code, |code|)
    ensures Emit(code, strs) == LandedBytes(Landed(code, 0), strs)
  {
    EmitFromLanded(code, strs, 0);
  }
}
