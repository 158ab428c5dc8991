/** Bytecode: five-byte instructions followed by the strings they use, the
    virtual machine that runs it, and the correctness of the whole compiler. */
module LockBytecode {
  import opened Bytes
  import opened LockTree
  import opened LockAsm
  import opened JumpThreading

  const INSN_LEN := 5

  // ----- Opcodes

  function OpNumber(op: Op): (b: Byte)
    ensures OpOf(b) == op
  {
    match op
    case JMPT => 0
    case JMPF => 1
    case TCONST => 2
    case TATR => 3
    case TIND => 4
    case TCARRY => 5
    case TIS => 6
    case TOWNER => 7
    case TEVAL => 8
    case TFLAG => 9
    case TTYPE => 10
    case TNAME => 11
    case TPOWER => 12
    case TCHANNEL => 13
    case TIP => 14
    case THOSTNAME => 15
    case TDBREFLIST => 16
    case LOADS => 17
    case LOADR => 18
    case NEGR => 19
    case PAREN => 20
    case LABEL => 21
    case RET => 22
  }

  /** The opcode with this number.  Any other number is a bad opcode, which
      the machine treats as loading a zero; LABEL stands in for those here and
      is told apart by `BadOp`. */
  function OpOf(b: Byte): Op {
    [JMPT, JMPF, TCONST, TATR, TIND, TCARRY, TIS, TOWNER, TEVAL, TFLAG, TTYPE, TNAME, TPOWER, TCHANNEL, TIP,
     THOSTNAME, TDBREFLIST, LOADS, LOADR, NEGR, PAREN, LABEL, RET][if b <= 22 then b else 21]
  }

  predicate BadOp(b: Byte) {
    b > 22
  }

  // ----- Emitting

  /** The number of instructions before a label, as found by walking the list. */
  function PosOfLabel(code: seq<Insn>, l: int): nat {
    if code == [] || code[0] == Insn(LABEL, l) then 0
    else (if code[0].op == LABEL then 0 else 1) + PosOfLabel(code[1..], l)
  }

  /** The length of the strings before string `c`, with their zeros. */
  function StringOffset(strs: seq<Text>, c: int): nat
    decreases |strs|
  {
    if strs == [] || c <= 0 then 0 else |strs[0]| + 1 + StringOffset(strs[1..], c - 1)
  }

  function StringSection(strs: seq<Text>): seq<Byte> {
    if strs == [] then [] else strs[0] + [0] + StringSection(strs[1..])
  }

  /** The argument that goes into the bytecode. */
  function FinalArg(code: seq<Insn>, strs: seq<Text>, insn: Insn): int {
    if IsJump(insn.op) then PosOfLabel(code, insn.arg) * INSN_LEN
    else if HasString(insn.op) then Real(code, 0) * INSN_LEN + StringOffset(strs, insn.arg)
    else insn.arg
  }

  function EmitInsn(code: seq<Insn>, strs: seq<Text>, insn: Insn): (b: seq<Byte>)
    ensures |b| == INSN_LEN
  {
    [OpNumber(insn.op)] + EncodeInt(FinalArg(code, strs, insn))
  }

  /** The bytes of the instructions from `i` on. */
  function EmitFrom(code: seq<Insn>, strs: seq<Text>, i: nat): (b: seq<Byte>)
    ensures |b| == Real(code, i) * INSN_LEN
    decreases |code| - i
  {
    if i >= |code| then []
    else if code[i].op == LABEL then EmitFrom(code, strs, i + 1)
    else EmitInsn(code, strs, code[i]) + EmitFrom(code, strs, i + 1)
  }

  function Emit(code: seq<Insn>, strs: seq<Text>): (b: seq<Byte>)
    ensures |b| >= Real(code, 0) * INSN_LEN
  {
    EmitFrom(code, strs, 0) + StringSection(strs)
  }

  // ----- The machine

  /** Program counter, result register, string register (the offset of a
      string, or negative for none), and the state outside the lock. */
  datatype Vm<S> = Vm(pc: int, r: bool, s: int, st: S)

  predicate InsnAt(bytes: seq<Byte>, pc: int) {
    0 <= pc && pc + INSN_LEN <= |bytes|
  }

  function OpAt(bytes: seq<Byte>, pc: int): Op
    requires InsnAt(bytes, pc)
  {
    OpOf(bytes[pc])
  }

  function ArgAt(bytes: seq<Byte>, pc: int): int
    requires InsnAt(bytes, pc)
  {
    DecodeInt(bytes[pc + 1..pc + INSN_LEN])
  }

  /** One instruction that does not return. */
  function VmStep<S>(w: World<S>, bytes: seq<Byte>, v: Vm<S>): Vm<S>
    requires InsnAt(bytes, v.pc)
  {
    var op, arg, next := OpAt(bytes, v.pc), ArgAt(bytes, v.pc), v.pc + INSN_LEN;
    if BadOp(bytes[v.pc]) then v.(pc := next, r := false)
    else if IsJump(op) then v.(pc := if v.r == (op == JMPT) then arg else next)
    else if op == LOADS then v.(pc := next, s := arg)
    else
      var (r, st) := Test(w, op, arg, CStringAt(bytes, v.s), CStringAt(bytes, arg), v.r, v.st);
      Vm(next, r, v.s, st)
  }

  /** Run to the RET.  Compiled locks only jump forward; bytes that do not, or
      that run out, stop the machine here. */
  function RunBytes<S>(w: World<S>, bytes: seq<Byte>, v: Vm<S>): (bool, S)
    decreases |bytes| - v.pc
  {
    if !InsnAt(bytes, v.pc) || OpAt(bytes, v.pc) == RET then (v.r, v.st) else
      var u := VmStep(w, bytes, v);
      if u.pc > v.pc then RunBytes(w, bytes, u) else (v.r, v.st)
  }

  /** A zero-terminated string starts at `a` in the strings that follow the
      `blen` bytes of instructions. */
  predicate StringStarts(bytes: seq<Byte>, blen: nat, a: int) {
    blen <= a && exists k :: a <= k < |bytes| && bytes[k] == 0
  }

  /** What the machine may do at its present instruction. */
  predicate SafeHere<S>(bytes: seq<Byte>, blen: nat, v: Vm<S>) {
    && blen <= |bytes| && blen % INSN_LEN == 0
    && v.pc % INSN_LEN == 0 && 0 <= v.pc && v.pc + INSN_LEN <= blen
    && !BadOp(bytes[v.pc])
    && (HasString(OpAt(bytes, v.pc)) ==> StringStarts(bytes, blen, ArgAt(bytes, v.pc)))
    && (UsesS(OpAt(bytes, v.pc)) ==>
          && v.pc >= INSN_LEN && OpAt(bytes, v.pc - INSN_LEN) == LOADS
          && v.s == ArgAt(bytes, v.pc - INSN_LEN) && StringStarts(bytes, blen, v.s))
  }

  /** Every instruction executed from here on is a whole one inside the
      instruction section, has its strings in place, finds in the string
      register what the LOADS just before it put there, and goes forward. */
  predicate SafeRun<S>(w: World<S>, bytes: seq<Byte>, blen: nat, v: Vm<S>)
    decreases |bytes| - v.pc
  {
    && SafeHere(bytes, blen, v)
    && (OpAt(bytes, v.pc) != RET ==>
          var u := VmStep(w, bytes, v);
          u.pc > v.pc && SafeRun(w, bytes, blen, u))
  }

  /** The cases of the interpreter loop that set the result register. */
  method DoTest<S>(w: World<S>, bytes: seq<Byte>, op: Op, arg: int, s: int, r0: bool, st0: S) returns (r: bool, st: S)
    ensures (r, st) == Test(w, op, arg, CStringAt(bytes, s), CStringAt(bytes, arg), r0, st0)
  {
    r, st := r0, st0;
    var text := CStringAt(bytes, arg);
    match op {
      case LOADR => r := arg != 0;
      case NEGR => r := !r;
      case TCONST => r := w.live(st, arg) && (arg == w.player || w.holds(st, arg));
      case TIS => r := w.live(st, arg) && arg == w.player;
      case TCARRY => r := w.live(st, arg) && w.holds(st, arg);
      case TOWNER => if !w.live(st, arg) { r := false; } else { var a := w.probe(st, ProbeOwner(arg)); r, st := a.0, a.1; }
      case TIND =>
        if !w.live(st, arg) { r := false; } else {
          var a := w.probe(st, ProbeInd(arg, CStringAt(bytes, s)));
          r, st := a.0, a.1;
        }
      case TATR => var a := w.probe(st, ProbeAtr(CStringAt(bytes, s), text)); r, st := a.0, a.1;
      case TEVAL => var a := w.probe(st, ProbeEval(CStringAt(bytes, s), text)); r, st := a.0, a.1;
      case TFLAG => var a := w.probe(st, ProbeFlag(FLAG, text)); r, st := a.0, a.1;
      case TPOWER => var a := w.probe(st, ProbeFlag(POWER, text)); r, st := a.0, a.1;
      case TNAME => var a := w.probe(st, ProbeFlag(NAME, text)); r, st := a.0, a.1;
      case TCHANNEL => var a := w.probe(st, ProbeFlag(CHANNEL, text)); r, st := a.0, a.1;
      case TIP => var a := w.probe(st, ProbeFlag(IP, text)); r, st := a.0, a.1;
      case THOSTNAME => var a := w.probe(st, ProbeFlag(HOSTNAME, text)); r, st := a.0, a.1;
      case TDBREFLIST => var a := w.probe(st, ProbeFlag(DBREFLIST, text)); r, st := a.0, a.1;
      case TTYPE => r := TestType(text, w.kind(st), r);
      case _ =>
    }
  }

  // ----- Where things are in the emitted bytes

  /** The number of instructions before `i`. */
  function Before(code: seq<Insn>, i: nat): nat
    requires i <= |code|
  {
    RealFalls(code, 0, i);
    Real(code, 0) - Real(code, i)
  }

  lemma {:induction false} PosOfLabelIsBefore(code: seq<Insn>, i: nat, l: int)
    requires i <= LabelPos(code, l)
    ensures PosOfLabel(code[i..], l) == Real(code, i) - Real(code, LabelPos(code, l))
    decreases |code| - i
  {
    if i < |code| {
      assert code[i..][1..] == code[i + 1..];
      if code[i] != Insn(LABEL, l) {
        PosOfLabelIsBefore(code, i + 1, l);
      }
    }
  }

  lemma {:induction false} EmittedAt(code: seq<Insn>, strs: seq<Text>, i: nat)
    requires i <= |code|
    ensures EmitFrom(code, strs, 0)[Before(code, i) * INSN_LEN..] == EmitFrom(code, strs, i)
  {
    if i > 0 {
      EmittedAt(code, strs, i - 1);
      var all, k := EmitFrom(code, strs, 0), Before(code, i - 1) * INSN_LEN;
      assert Real(code, i - 1) == (if code[i - 1].op == LABEL then 0 else 1) + Real(code, i);
      if code[i - 1].op != LABEL {
        assert all[k + INSN_LEN..] == all[k..][INSN_LEN..];
        assert EmitFrom(code, strs, i - 1)[INSN_LEN..] == EmitFrom(code, strs, i);
      }
    }
  }

  lemma {:induction false} StringAt(strs: seq<Text>, c: nat)
    requires c < |strs|
    ensures var o := StringOffset(strs, c);
            && o + |strs[c]| < |StringSection(strs)|
            && StringSection(strs)[o..o + |strs[c]| + 1] == strs[c] + [0]
  {
    if c > 0 {
      StringAt(strs[1..], c - 1);
      var o, rest := StringOffset(strs[1..], c - 1), StringSection(strs[1..]);
      var d, t := |strs[0]| + 1, strs[c];
      assert StringSection(strs)[d..] == rest;
      assert StringSection(strs)[d + o..d + o + |t| + 1] == rest[o..o + |t| + 1];
    }
  }

  predicate AllNulFree(strs: seq<Text>) {
    forall c :: 0 <= c < |strs| ==> NulFree(strs[c])
  }

  /** Instruction arguments that are objects or truth values fit in an int. */
  predicate ArgsFit(code: seq<Insn>) {
    forall i :: 0 <= i < |code| && !IsJump(code[i].op) && !HasString(code[i].op) && code[i].op != LABEL ==> IsInt(code[i].arg)
  }

  predicate Emittable(code: seq<Insn>, strs: seq<Text>) {
    && WellFormed(code, |strs|) && AllNulFree(strs) && ArgsFit(code)
    && |Emit(code, strs)| < INT_LIMIT
  }

  lemma EmittedString(code: seq<Insn>, strs: seq<Text>, c: nat)
    requires AllNulFree(strs) && c < |strs|
    ensures var a := Real(code, 0) * INSN_LEN + StringOffset(strs, c);
            && CStringAt(Emit(code, strs), a) == strs[c]
            && StringStarts(Emit(code, strs), Real(code, 0) * INSN_LEN, a)
            && a < |Emit(code, strs)|
  {
    hide Emit, EmitFrom, StringSection, StringOffset, CStringAt, StringStarts, NulFree, Real, AllNulFree;
    EmitIs(code, strs, c);
    StringAt(strs, c);
    EmittedText(EmitFrom(code, strs, 0), StringSection(strs), StringOffset(strs, c), strs[c]);
  }

  lemma EmitIs(code: seq<Insn>, strs: seq<Text>, c: nat)
    requires AllNulFree(strs) && c < |strs|
    ensures Emit(code, strs) == EmitFrom(code, strs, 0) + StringSection(strs) && NulFree(strs[c])
    ensures |EmitFrom(code, strs, 0)| == Real(code, 0) * INSN_LEN
  {
    hide EmitFrom, StringSection, Real;
  }

  lemma EmittedText(a: seq<Byte>, b: seq<Byte>, o: nat, t: Text)
    requires NulFree(t) && o + |t| < |b| && b[o..o + |t| + 1] == t + [0]
    ensures CStringAt(a + b, |a| + o) == t && StringStarts(a + b, |a|, |a| + o)
  {
    hide CStringAt, StringStarts, NulFree;
    SliceOfConcat(a, b, o, |t| + 1);
    StringFound(a + b, |a|, o, t);
  }

  lemma SliceOfConcat(a: seq<Byte>, b: seq<Byte>, o: nat, n: nat)
    requires o + n <= |b|
    ensures (a + b)[|a| + o..|a| + o + n] == b[o..o + n]
  {
  }

  lemma StringFound(bytes: seq<Byte>, blen: nat, o: nat, t: Text)
    requires NulFree(t) && blen + o + |t| < |bytes| && bytes[blen + o..blen + o + |t| + 1] == t + [0]
    ensures CStringAt(bytes, blen + o) == t && StringStarts(bytes, blen, blen + o)
  {
    var s := bytes[blen + o..blen + o + |t| + 1];
    assert bytes[blen + o..blen + o + |t|] == s[..|t|] == t;
    assert bytes[blen + o + |t|] == s[|t|] == 0;
    CStringAtFinds(bytes, blen + o, t);
  }

  /** The argument of an instruction survives being stored. */
  lemma FinalArgFits(code: seq<Insn>, strs: seq<Text>, i: nat)
    requires Emittable(code, strs) && i < |code| && code[i].op != LABEL
    ensures IsInt(FinalArg(code, strs, code[i]))
  {
    if IsJump(code[i].op) {
      JumpGoes(code, i);
    } else if HasString(code[i].op) {
      assert StringReady(code, i, 0, |strs|);
      EmittedString(code, strs, code[i].arg);
    }
  }

  /** A jump's final argument is where its label is, which is ahead of it. */
  lemma JumpGoes(code: seq<Insn>, i: nat)
    requires UniqueLabels(code) && JumpsResolved(code, 0)
    requires i < |code| && IsJump(code[i].op)
    ensures var k := LabelPos(code, code[i].arg);
            i < k < |code| && PosOfLabel(code, code[i].arg) == Before(code, k)
            && Before(code, i) < Before(code, k) <= Real(code, 0)
  {
    var l := code[i].arg;
    assert LabelAfter(code, i, l);
    var k :| i < k < |code| && code[k] == Insn(LABEL, l);
    LabelPosUnique(code, k);
    assert code[0..] == code;
    PosOfLabelIsBefore(code, 0, l);
    RealFalls(code, i, k);
  }

  /** The bytes of instruction `i` decode to it. */
  lemma DecodeInsn(code: seq<Insn>, strs: seq<Text>, i: nat)
    requires Emittable(code, strs) && i < |code| && code[i].op != LABEL
    ensures var bytes, pc := Emit(code, strs), Before(code, i) * INSN_LEN;
            && InsnAt(bytes, pc) && pc + INSN_LEN <= Real(code, 0) * INSN_LEN
            && !BadOp(bytes[pc]) && OpAt(bytes, pc) == code[i].op && ArgAt(bytes, pc) == FinalArg(code, strs, code[i])
    ensures Before(code, i + 1) == Before(code, i) + 1
  {
    var bytes, pc := Emit(code, strs), Before(code, i) * INSN_LEN;
    var insn := EmitInsn(code, strs, code[i]);
    EmittedAt(code, strs, i);
    assert EmitFrom(code, strs, i) == insn + EmitFrom(code, strs, i + 1);
    InsnFound(EmitFrom(code, strs, 0), StringSection(strs), pc, insn, EmitFrom(code, strs, i + 1));
    FinalArgFits(code, strs, i);
    DecodeEncode(FinalArg(code, strs, code[i]));
  }

  lemma InsnFound(insns: seq<Byte>, more: seq<Byte>, pc: nat, insn: seq<Byte>, rest: seq<Byte>)
    requires pc <= |insns| && insns[pc..] == insn + rest && |insn| == INSN_LEN
    ensures pc + INSN_LEN <= |insns|
    ensures (insns + more)[pc] == insn[0] && (insns + more)[pc + 1..pc + INSN_LEN] == insn[1..]
  {
    assert insns[pc] == insns[pc..][0];
    forall k | 1 <= k < INSN_LEN ensures (insns + more)[pc + k] == insn[k] {
      assert insns[pc + k] == insns[pc..][k];
    }
  }

  // ----- The machine does what the assembly does

  /** The machine at `v` stands where the assembly stands at `c`, with the same
      registers. */
  predicate Matches<S>(code: seq<Insn>, strs: seq<Text>, c: Regs<S>, v: Vm<S>) {
    && c.i < |code| && v.pc == Before(code, c.i) * INSN_LEN
    && v.r == c.r && CStringAt(Emit(code, strs), v.s) == StringNo(strs, c.sr)
    && (UsesS(code[c.i].op) && c.i > 0 && code[c.i - 1].op == LOADS ==> v.s == FinalArg(code, strs, code[c.i - 1]))
  }

  lemma StepMatches<S>(w: World<S>, code: seq<Insn>, strs: seq<Text>, c: Regs<S>, v: Vm<S>)
    requires Emittable(code, strs) && Matches(code, strs, c, v) && v.st == c.s
    requires code[c.i].op != LABEL && code[c.i].op != RET
    ensures InsnAt(Emit(code, strs), v.pc)
    ensures var d, u := Step(w, code, strs, c), VmStep(w, Emit(code, strs), v);
            Matches(code, strs, d, u) && u.st == d.s && d.i > c.i && u.pc > v.pc
  {
    DecodeInsn(code, strs, c.i);
    if IsJump(code[c.i].op) {
      StepMatchesJump(w, code, strs, c, v);
    } else if code[c.i].op == LOADS {
      StepMatchesLoad(w, code, strs, c, v);
    } else {
      StepMatchesTest(w, code, strs, c, v);
    }
  }

  predicate Decoded<S>(code: seq<Insn>, strs: seq<Text>, c: Regs<S>, v: Vm<S>) {
    var bytes := Emit(code, strs);
    && c.i + 1 < |code| && Before(code, c.i + 1) == Before(code, c.i) + 1
    && InsnAt(bytes, v.pc) && !BadOp(bytes[v.pc])
    && OpAt(bytes, v.pc) == code[c.i].op && ArgAt(bytes, v.pc) == FinalArg(code, strs, code[c.i])
  }

  lemma StepMatchesJump<S>(w: World<S>, code: seq<Insn>, strs: seq<Text>, c: Regs<S>, v: Vm<S>)
    requires Emittable(code, strs) && Matches(code, strs, c, v) && v.st == c.s
    requires IsJump(code[c.i].op) && Decoded(code, strs, c, v)
    ensures var d, u := Step(w, code, strs, c), VmStep(w, Emit(code, strs), v);
            Matches(code, strs, d, u) && u.st == d.s && d.i > c.i && u.pc > v.pc
  {
    hide Emit, CStringAt, OpAt, ArgAt, Before, Rounded, ArgsFit, AllNulFree, UniqueLabels, JumpsResolved, Test;
    JumpGoes(code, c.i);
  }

  lemma StepMatchesLoad<S>(w: World<S>, code: seq<Insn>, strs: seq<Text>, c: Regs<S>, v: Vm<S>)
    requires Emittable(code, strs) && Matches(code, strs, c, v) && v.st == c.s
    requires code[c.i].op == LOADS && Decoded(code, strs, c, v)
    ensures var d, u := Step(w, code, strs, c), VmStep(w, Emit(code, strs), v);
            Matches(code, strs, d, u) && u.st == d.s && d.i > c.i && u.pc > v.pc
  {
    hide Emit, CStringAt, OpAt, ArgAt, Before, UniqueLabels, JumpsResolved, Test;
    assert StringReady(code, c.i, 0, |strs|);
    EmittedString(code, strs, code[c.i].arg);
  }

  lemma StepMatchesTest<S>(w: World<S>, code: seq<Insn>, strs: seq<Text>, c: Regs<S>, v: Vm<S>)
    requires Emittable(code, strs) && Matches(code, strs, c, v) && v.st == c.s
    requires code[c.i].op != LABEL && code[c.i].op != RET && code[c.i].op != LOADS && !IsJump(code[c.i].op)
    requires Decoded(code, strs, c, v)
    ensures var d, u := Step(w, code, strs, c), VmStep(w, Emit(code, strs), v);
            Matches(code, strs, d, u) && u.st == d.s && d.i > c.i && u.pc > v.pc
  {
    hide Test, Emit, CStringAt, OpAt, ArgAt, Before, UniqueLabels, JumpsResolved;
    var bytes, name := Emit(code, strs), StringNo(strs, c.sr);
    assert StringReady(code, c.i, 0, |strs|);
    if HasString(code[c.i].op) {
      EmittedString(code, strs, code[c.i].arg);
      TestArgIgnored(w, code[c.i].op, code[c.i].arg, ArgAt(bytes, v.pc), name, StringNo(strs, code[c.i].arg), c.r, c.s);
    } else {
      NoStringNeeded(w, code[c.i], name, StringNo(strs, code[c.i].arg), CStringAt(bytes, code[c.i].arg), c.r, c.s);
    }
  }

  lemma TestArgIgnored<S>(w: World<S>, op: Op, arg: int, arg': int, name: Text, t: Text, r: bool, s: S)
    requires HasString(op)
    ensures Test(w, op, arg, name, t, r, s) == Test(w, op, arg', name, t, r, s)
  {
  }

  lemma NoStringNeeded<S>(w: World<S>, insn: Insn, name: Text, t: Text, u: Text, r: bool, s: S)
    requires !HasString(insn.op)
    ensures Test(w, insn.op, insn.arg, name, t, r, s) == Test(w, insn.op, insn.arg, name, u, r, s)
  {
  }

  /** The second half of the compiler is correct, and the machine stays safe. */
  lemma {:induction false} EmitRuns<S>(w: World<S>, code: seq<Insn>, strs: seq<Text>, c: Regs<S>, v: Vm<S>)
    requires Emittable(code, strs) && Matches(code, strs, c, v) && v.st == c.s
    ensures RunBytes(w, Emit(code, strs), v) == Run(w, code, strs, c)
    ensures SafeRun(w, Emit(code, strs), Real(code, 0) * INSN_LEN, v)
    decreases |code| - c.i
  {
    hide Test, Emit, CStringAt;
    if code[c.i].op == LABEL {
      var d := c.(i := c.i + 1);
      SkipParen(w, code, strs, c.i, d.i, c.r, c.sr, c.s);
      EmitRuns(w, code, strs, d, v);
    } else {
      DecodeInsn(code, strs, c.i);
      SafeAt(code, strs, c, v);
      if code[c.i].op != RET {
        StepMatches(w, code, strs, c, v);
        EmitRuns(w, code, strs, Step(w, code, strs, c), VmStep(w, Emit(code, strs), v));
      }
    }
  }

  lemma SafeAt<S>(code: seq<Insn>, strs: seq<Text>, c: Regs<S>, v: Vm<S>)
    requires Emittable(code, strs) && Matches(code, strs, c, v) && code[c.i].op != LABEL
    ensures SafeHere(Emit(code, strs), Real(code, 0) * INSN_LEN, v)
  {
    hide Emit, CStringAt, OpAt, ArgAt, StringStarts, EmitFrom, Real, BadOp, PosOfLabel, UniqueLabels,
         JumpsResolved, ArgsFit, AllNulFree;
    DecodeInsn(code, strs, c.i);
    if c.i < |code| - 1 {
      StringsAround(code, strs, c.i);
      if HasString(code[c.i].op) { EmittedString(code, strs, code[c.i].arg); }
      if UsesS(code[c.i].op) {
        DecodeInsn(code, strs, c.i - 1);
        EmittedString(code, strs, code[c.i - 1].arg);
      }
    }
  }

  lemma StringsAround(code: seq<Insn>, strs: seq<Text>, i: nat)
    requires Emittable(code, strs) && i < |code| - 1
    ensures HasString(code[i].op) ==> 0 <= code[i].arg < |strs|
    ensures UsesS(code[i].op) ==> i > 0 && code[i - 1].op == LOADS && 0 <= code[i - 1].arg < |strs|
  {
    assert StringReady(code, i, 0, |strs|);
    if i > 0 { assert StringReady(code, i - 1, 0, |strs|); }
  }
}
