/** The labelled "assembly" made from a parse tree, how it runs, and why it
    computes the value of the tree. */
module LockAsm {
  import opened Bytes
  import opened LockTree

  /** In the order of their opcode numbers. */
  datatype Op =
    | JMPT | JMPF | TCONST | TATR | TIND | TCARRY | TIS | TOWNER | TEVAL | TFLAG | TTYPE | TNAME
    | TPOWER | TCHANNEL | TIP | THOSTNAME | TDBREFLIST | LOADS | LOADR | NEGR | PAREN | LABEL | RET

  datatype Insn = Insn(op: Op, arg: int)

  datatype Asm = Asm(insns: seq<Insn>, strs: seq<Text>, labels: nat)

  /** What kind of node the one being compiled is a child of. */
  datatype Outer = UnderAnd | UnderOr | UnderNot | Alone

  predicate IsJump(op: Op) {
    op == JMPT || op == JMPF
  }

  /** Tests that also need the string register. */
  predicate UsesS(op: Op) {
    op == TATR || op == TEVAL || op == TIND
  }

  /** Instructions whose argument is the number of a string. */
  predicate HasString(op: Op) {
    match op
    case LOADS | TEVAL | TATR | TFLAG | TNAME | TPOWER | TTYPE | TCHANNEL | TIP | THOSTNAME | TDBREFLIST => true
    case _ => false
  }

  function FlagOp(key: FlagKey): Op {
    match key
    case FLAG => TFLAG
    case POWER => TPOWER
    case TYPE => TTYPE
    case NAME => TNAME
    case CHANNEL => TCHANNEL
    case IP => TIP
    case HOSTNAME => THOSTNAME
    case DBREFLIST => TDBREFLIST
  }

  // ----- Generating code

  /** The first place where `s` is stored, or the number of strings. */
  function FindString(strs: seq<Text>, s: Text): (i: nat)
    ensures i <= |strs|
    ensures i < |strs| ==> strs[i] == s
    ensures forall k :: 0 <= k < i ==> strs[k] != s
  {
    if strs == [] || strs[0] == s then 0 else
      var i := FindString(strs[1..], s);
      assert forall k :: 1 <= k <= i ==> strs[k] == strs[1..][k - 1];
      i + 1
  }

  function Append(a: Asm, op: Op, arg: int): Asm {
    a.(insns := a.insns + [Insn(op, arg)])
  }

  /** Append an instruction whose argument is a string, storing the string
      unless it is there already. */
  function AppendString(a: Asm, op: Op, s: Text): Asm {
    var i := FindString(a.strs, s);
    Asm(a.insns + [Insn(op, i)], if i < |a.strs| then a.strs else a.strs + [s], a.labels)
  }

  function JumpOf(n: Node): Op {
    if n.And? then JMPF else JMPT
  }

  function InnerOf(n: Node): Outer {
    if n.And? then UnderAnd else UnderOr
  }

  /** Whether the decompiled form needs parentheses here. */
  predicate Parens(n: Node, outer: Outer) {
    outer == UnderNot || (n.Or? && outer == UnderAnd)
  }

  predicate IsAtom(n: Node) {
    !n.And? && !n.Or? && !n.Not?
  }

  function GenAtom(a: Asm, n: Node): Asm
    requires IsAtom(n)
  {
    match n
    case Ind(x, lock) => Append(AppendString(a, LOADS, lock), TIND, x)
    case Is(x) => Append(a, TIS, x)
    case Carry(x) => Append(a, TCARRY, x)
    case Owner(x) => Append(a, TOWNER, x)
    case Const(x) => Append(a, TCONST, x)
    case Bool(v) => Append(a, LOADR, if v then 1 else 0)
    case Atr(name, text) => AppendString(AppendString(a, LOADS, name), TATR, text)
    case Eval(name, text) => AppendString(AppendString(a, LOADS, name), TEVAL, text)
    case Flag(key, text) => AppendString(a, FlagOp(key), text)
  }

  function Gen(a: Asm, n: Node, outer: Outer): Asm
    decreases n, 1
  {
    match n
    case And(_, _) => GenPair(a, n, outer)
    case Or(_, _) => GenPair(a, n, outer)
    case Not(m) => Append(Gen(a, m, UnderNot), NEGR, 0)
    case _ => GenAtom(a, n)
  }

  function Open(a: Asm, n: Node, outer: Outer): Asm {
    var b := a.(labels := a.labels + 1);
    if Parens(n, outer) then Append(b, PAREN, 0) else b
  }

  function Close(a: Asm, n: Node, outer: Outer): Asm {
    if Parens(n, outer) then Append(a, PAREN, 1) else a
  }

  function GenPair(a: Asm, n: Node, outer: Outer): Asm
    requires n.And? || n.Or?
    decreases n, 0
  {
    var lbl := a.labels;
    var a1 := Append(Gen(Open(a, n, outer), n.a, InnerOf(n)), JumpOf(n), lbl);
    Append(Close(Gen(a1, n.b, InnerOf(n)), n, outer), LABEL, lbl)
  }

  function Generate(n: Node): Asm {
    Append(Gen(Asm([], [], 0), n, Alone), RET, 0)
  }

  lemma GenIs(a: Asm, n: Node, outer: Outer)
    ensures n.And? || n.Or? ==> Gen(a, n, outer) == GenPair(a, n, outer)
    ensures n.Not? ==> Gen(a, n, outer) == Append(Gen(a, n.n, UnderNot), NEGR, 0)
    ensures IsAtom(n) ==> Gen(a, n, outer) == GenAtom(a, n)
  {
    hide GenPair, GenAtom;
  }

  /** The instructions of an atom. */
  function AtomInsns(a: Asm, n: Node): seq<Insn>
    requires IsAtom(n)
  {
    match n
    case Ind(x, lock) => [Insn(LOADS, FindString(a.strs, lock)), Insn(TIND, x)]
    case Is(x) => [Insn(TIS, x)]
    case Carry(x) => [Insn(TCARRY, x)]
    case Owner(x) => [Insn(TOWNER, x)]
    case Const(x) => [Insn(TCONST, x)]
    case Bool(v) => [Insn(LOADR, if v then 1 else 0)]
    case Atr(name, text) => Loaded(a, name, TATR, text)
    case Eval(name, text) => Loaded(a, name, TEVAL, text)
    case Flag(key, text) => [Insn(FlagOp(key), FindString(a.strs, text))]
  }

  function Loaded(a: Asm, name: Text, op: Op, text: Text): seq<Insn> {
    [Insn(LOADS, FindString(a.strs, name)), Insn(op, FindString(AppendString(a, LOADS, name).strs, text))]
  }

  /** What an atom's instructions are, and that they come after those of `a`. */
  lemma AtomShape(a: Asm, n: Node)
    requires IsAtom(n)
    ensures GenAtom(a, n).insns == a.insns + AtomInsns(a, n)
    ensures GenAtom(a, n).labels == a.labels && a.strs <= GenAtom(a, n).strs
  {
    hide FindString;
  }

  lemma AtomPlain(a: Asm, n: Node)
    requires IsAtom(n)
    ensures var g := AtomInsns(a, n);
            && |g| == (if n.Atr? || n.Eval? || n.Ind? then 2 else 1)
            && (forall k :: 0 <= k < |g| ==> g[k].op != PAREN && g[k].op != NEGR && g[k].op != LABEL && g[k].op != RET && !IsJump(g[k].op))
            && (|g| == 1 ==> g[0].op != LOADS && !UsesS(g[0].op))
            && (|g| == 2 ==> g[0].op == LOADS && g[1].op != LOADS)
  {
    hide FindString;
  }

  lemma AtomStrings(a: Asm, n: Node)
    requires IsAtom(n)
    ensures var g := AtomInsns(a, n);
            forall k :: 0 <= k < |g| && HasString(g[k].op) ==> 0 <= g[k].arg < |GenAtom(a, n).strs|
  {
    if n.Atr? || n.Eval? || n.Ind? {
      var b := AppendString(a, LOADS, if n.Ind? then n.lock else n.name);
      assert |b.strs| <= |GenAtom(a, n).strs| && FindString(a.strs, if n.Ind? then n.lock else n.name) < |b.strs|;
    }
  }

  lemma FlagText(a: Asm, n: Node, strs: seq<Text>)
    requires IsAtom(n) && GenAtom(a, n).strs <= strs
    ensures n.Flag? ==> StringNo(strs, AtomInsns(a, n)[0].arg) == n.text
  {
    if n.Flag? { assert GenAtom(a, n).strs[FindString(a.strs, n.text)] == n.text; }
  }

  lemma LoadedText(a: Asm, n: Node, strs: seq<Text>)
    requires n.Atr? || n.Eval? || n.Ind?
    requires GenAtom(a, n).strs <= strs
    ensures StringNo(strs, AtomInsns(a, n)[0].arg) == (if n.Ind? then n.lock else n.name)
    ensures !n.Ind? ==> StringNo(strs, AtomInsns(a, n)[1].arg) == n.text
  {
    var b := AppendString(a, LOADS, if n.Ind? then n.lock else n.name);
    assert b.strs[AtomInsns(a, n)[0].arg] == if n.Ind? then n.lock else n.name;
    assert b.strs <= GenAtom(a, n).strs;
    if !n.Ind? { assert GenAtom(a, n).strs[FindString(b.strs, n.text)] == n.text; }
  }

  // ----- Running it

  /** The position of a label, or the length of the code. */
  function LabelPos(code: seq<Insn>, l: int): (i: nat)
    ensures i <= |code|
    ensures i < |code| ==> code[i] == Insn(LABEL, l)
    ensures forall k :: 0 <= k < i ==> code[k] != Insn(LABEL, l)
  {
    if code == [] || code[0] == Insn(LABEL, l) then 0 else
      var i := LabelPos(code[1..], l);
      assert forall k :: 1 <= k <= i ==> code[k] == code[1..][k - 1];
      i + 1
  }

  function StringNo(strs: seq<Text>, i: int): Text {
    if 0 <= i < |strs| then strs[i] else []
  }

  /** What a test (or LOADR, NEGR) does to the result register.  `name` is the
      string register and `text` the string the argument stands for. */
  function Test<S>(w: World<S>, op: Op, arg: int, name: Text, text: Text, r: bool, s: S): (bool, S) {
    match op
    case LOADR => (arg != 0, s)
    case NEGR => (!r, s)
    case TCONST => (TestConst(w, arg, s), s)
    case TIS => (TestIs(w, arg, s), s)
    case TCARRY => (TestCarry(w, arg, s), s)
    case TOWNER => TestLive(w, arg, ProbeOwner(arg), s)
    case TIND => TestLive(w, arg, ProbeInd(arg, name), s)
    case TATR => w.probe(s, ProbeAtr(name, text))
    case TEVAL => w.probe(s, ProbeEval(name, text))
    case TFLAG => w.probe(s, ProbeFlag(FLAG, text))
    case TPOWER => w.probe(s, ProbeFlag(POWER, text))
    case TTYPE => (TestType(text, w.kind(s), r), s)
    case TNAME => w.probe(s, ProbeFlag(NAME, text))
    case TCHANNEL => w.probe(s, ProbeFlag(CHANNEL, text))
    case TIP => w.probe(s, ProbeFlag(IP, text))
    case THOSTNAME => w.probe(s, ProbeFlag(HOSTNAME, text))
    case TDBREFLIST => w.probe(s, ProbeFlag(DBREFLIST, text))
    case _ => (r, s)   // labels and parentheses
  }

  /** The registers: the next instruction, the result register R, the number of
      the string in the string register S, and the state outside the lock. */
  datatype Regs<S> = Regs(i: nat, r: bool, sr: int, s: S)

  /** One instruction that does not return. */
  function Step<S>(w: World<S>, code: seq<Insn>, strs: seq<Text>, c: Regs<S>): Regs<S>
    requires c.i < |code|
  {
    var Insn(op, arg) := code[c.i];
    if IsJump(op) then c.(i := if c.r == (op == JMPT) then LabelPos(code, arg) else c.i + 1)
    else if op == LOADS then c.(i := c.i + 1, sr := arg)
    else
      var (r, s) := Test(w, op, arg, StringNo(strs, c.sr), StringNo(strs, arg), c.r, c.s);
      Regs(c.i + 1, r, c.sr, s)
  }

  /** Run the code to its RET.  Jumps only go forward; code that does otherwise,
      or runs off the end, stops. */
  function Run<S>(w: World<S>, code: seq<Insn>, strs: seq<Text>, c: Regs<S>): (bool, S)
    decreases |code| - c.i
  {
    if c.i >= |code| || code[c.i].op == RET then (c.r, c.s) else
      var d := Step(w, code, strs, c);
      if d.i > c.i then Run(w, code, strs, d) else (c.r, c.s)
  }

  // ----- The shape of generated code

  /** The code of an AND or OR up to and including its jump. */
  function AfterJump(a: Asm, n: Node, outer: Outer): Asm
    requires n.And? || n.Or?
  {
    Append(Gen(Open(a, n, outer), n.a, InnerOf(n)), JumpOf(n), a.labels)
  }

  /** The code of an AND or OR up to where its second part ends. */
  function AfterSecond(a: Asm, n: Node, outer: Outer): Asm
    requires n.And? || n.Or?
  {
    Gen(AfterJump(a, n, outer), n.b, InnerOf(n))
  }

  /** How the code of an AND or OR is made, one step at a time. */
  lemma PairSteps(a: Asm, n: Node, outer: Outer)
    requires n.And? || n.Or?
    ensures var a0, a1, a2 := Open(a, n, outer), AfterJump(a, n, outer), AfterSecond(a, n, outer);
            && a0 == (if Parens(n, outer) then Append(a.(labels := a.labels + 1), PAREN, 0) else a.(labels := a.labels + 1))
            && a1 == Append(Gen(a0, n.a, InnerOf(n)), JumpOf(n), a.labels)
            && a2 == Gen(a1, n.b, InnerOf(n))
            && Gen(a, n, outer) == Append(if Parens(n, outer) then Append(a2, PAREN, 1) else a2, LABEL, a.labels)
  {
    GenIs(a, n, outer);
    hide Gen, Append;
  }

  predicate Extends(a: Asm, b: Asm) {
    a.insns <= b.insns && a.strs <= b.strs && a.labels <= b.labels
  }

  lemma {:induction false} GenExtends(a: Asm, n: Node, outer: Outer)
    ensures Extends(a, Gen(a, n, outer))
    ensures |a.insns| < |Gen(a, n, outer).insns|
    decreases n
  {
    match n
    case And(_, _) => GenExtends(Open(a, n, outer), n.a, InnerOf(n)); GenExtends(AfterJump(a, n, outer), n.b, InnerOf(n));
    case Or(_, _) => GenExtends(Open(a, n, outer), n.a, InnerOf(n)); GenExtends(AfterJump(a, n, outer), n.b, InnerOf(n));
    case Not(m) => GenExtends(a, m, UnderNot);
    case _ =>
  }

  /** The stretches of code that make up an AND or OR. */
  lemma PairShape(a: Asm, n: Node, outer: Outer)
    requires n.And? || n.Or?
    ensures var a0, a2 := Open(a, n, outer), AfterSecond(a, n, outer);
            var a0' := Gen(a0, n.a, InnerOf(n));
            && a0.insns == a.insns + (if Parens(n, outer) then [Insn(PAREN, 0)] else [])
            && a0.labels == a.labels + 1
            && Extends(a, a0) && Extends(a0, a0') && Extends(AfterJump(a, n, outer), a2)
            && AfterJump(a, n, outer) == Asm(a0'.insns + [Insn(JumpOf(n), a.labels)], a0'.strs, a0'.labels)
            && Gen(a, n, outer) ==
               Asm(a2.insns + (if Parens(n, outer) then [Insn(PAREN, 1)] else []) + [Insn(LABEL, a.labels)], a2.strs, a2.labels)
  {
    GenExtends(Open(a, n, outer), n.a, InnerOf(n));
    GenExtends(AfterJump(a, n, outer), n.b, InnerOf(n));
  }

  /** The labels from `lo` on are all different and lie in from .. to - 1. */
  predicate LabelRange(code: seq<Insn>, lo: nat, from: int, to: int) {
    && (forall i :: lo <= i < |code| && code[i].op == LABEL ==> from <= code[i].arg < to)
    && (forall i, j :: lo <= i < j < |code| && code[i].op == LABEL && code[j].op == LABEL ==> code[i].arg != code[j].arg)
  }

  predicate UniqueLabels(code: seq<Insn>) {
    forall i, j :: 0 <= i < j < |code| && code[i].op == LABEL && code[j].op == LABEL ==> code[i].arg != code[j].arg
  }

  lemma LabelRangeJoin(c: seq<Insn>, d: seq<Insn>, lo: nat, from: int, mid: int, to: int)
    requires c <= d && from <= mid <= to
    requires LabelRange(c, lo, from, mid) && LabelRange(d, |c|, mid, to)
    ensures LabelRange(d, lo, from, to)
  {
    assert forall i :: 0 <= i < |c| ==> d[i] == c[i];
  }

  /** Labels are handed out in order, so no two are the same. */
  lemma {:induction false} GenLabels(a: Asm, n: Node, outer: Outer)
    ensures LabelRange(Gen(a, n, outer).insns, |a.insns|, a.labels, Gen(a, n, outer).labels)
    decreases n
  {
    hide Gen, GenPair, GenAtom, LabelRange;
    GenIs(a, n, outer);
    if n.And? || n.Or? {
      GenLabelsPair(a, n, outer);
    } else if n.Not? {
      var g := Gen(a, n.n, UnderNot);
      GenExtends(a, n.n, UnderNot);
      GenLabels(a, n.n, UnderNot);
      NoLabels(g.insns, [Insn(NEGR, 0)], g.labels);
      LabelRangeJoin(g.insns, Append(g, NEGR, 0).insns, |a.insns|, a.labels, g.labels, g.labels);
    } else {
      AtomShape(a, n);
      AtomPlain(a, n);
      NoLabels(a.insns, AtomInsns(a, n), a.labels);
    }
  }

  lemma NoLabels(c: seq<Insn>, more: seq<Insn>, l: int)
    requires forall k :: 0 <= k < |more| ==> more[k].op != LABEL
    ensures LabelRange(c + more, |c|, l, l)
  {
  }

  lemma {:induction false} GenLabelsPair(a: Asm, n: Node, outer: Outer)
    requires n.And? || n.Or?
    ensures LabelRange(Gen(a, n, outer).insns, |a.insns|, a.labels, Gen(a, n, outer).labels)
    decreases n, 0
  {
    PairShape(a, n, outer);
    GenLabels(Open(a, n, outer), n.a, InnerOf(n));
    GenLabels(AfterJump(a, n, outer), n.b, InnerOf(n));
    LabelsOfPair(a.insns, Open(a, n, outer).insns, Gen(Open(a, n, outer), n.a, InnerOf(n)).insns, AfterJump(a, n, outer).insns,
                 AfterSecond(a, n, outer).insns, Gen(a, n, outer).insns, a.labels, AfterJump(a, n, outer).labels, Gen(a, n, outer).labels);
  }

  lemma LabelsOfPair(c: seq<Insn>, c0: seq<Insn>, c0': seq<Insn>, c1: seq<Insn>, c2: seq<Insn>, code: seq<Insn>,
                     l: int, l1: int, l2: int)
    requires c <= c0 <= c0' <= c1 <= c2 <= code && |c1| == |c0'| + 1 && |code| > |c2| && l < l1 <= l2
    requires forall i :: |c| <= i < |c0| ==> c0[i].op != LABEL
    requires LabelRange(c0', |c0|, l + 1, l1)
    requires c1[|c0'|].op != LABEL
    requires LabelRange(c2, |c1|, l1, l2)
    requires code[|code| - 1] == Insn(LABEL, l) && forall i :: |c2| <= i < |code| - 1 ==> code[i].op != LABEL
    ensures LabelRange(code, |c|, l, l2)
  {
    assert LabelRange(c1, |c0|, l + 1, l1) by { LabelRangeJoin(c0', c1, |c0|, l + 1, l1, l1); }
    LabelRangeJoin(c1, c2, |c0|, l + 1, l1, l2);
    assert forall i :: 0 <= i < |c2| ==> code[i] == c2[i];
    assert forall i :: 0 <= i < |c0| ==> code[i] == c0[i];
  }

  /** The label `l` stands somewhere after instruction `i`. */
  predicate LabelAfter(code: seq<Insn>, i: nat, l: int) {
    exists k :: i < k < |code| && code[k] == Insn(LABEL, l)
  }

  predicate JumpsResolved(code: seq<Insn>, lo: nat) {
    forall i :: lo <= i < |code| && IsJump(code[i].op) ==> LabelAfter(code, i, code[i].arg)
  }

  /** Jumps between `lo` and `hi` find their labels before `hi`, and so they do
      in any longer code. */
  lemma JumpsStayResolved(code: seq<Insn>, more: seq<Insn>, lo: nat, i: nat)
    requires code <= more && JumpsResolved(code, lo)
    requires lo <= i < |code| && IsJump(code[i].op)
    ensures LabelAfter(more, i, more[i].arg)
  {
    assert LabelAfter(code, i, code[i].arg);
    var k :| i < k < |code| && code[k] == Insn(LABEL, code[i].arg);
    assert more[k] == code[k];
  }

  lemma {:induction false} GenJumps(a: Asm, n: Node, outer: Outer)
    ensures JumpsResolved(Gen(a, n, outer).insns, |a.insns|)
    decreases n
  {
    match n
    case And(_, _) => GenJumpsPair(a, n, outer);
    case Or(_, _) => GenJumpsPair(a, n, outer);
    case Not(m) =>
      GenJumps(a, m, UnderNot);
      forall i | |a.insns| <= i < |Gen(a, n, outer).insns| && IsJump(Gen(a, n, outer).insns[i].op)
        ensures LabelAfter(Gen(a, n, outer).insns, i, Gen(a, n, outer).insns[i].arg)
      {
        JumpsStayResolved(Gen(a, m, UnderNot).insns, Gen(a, n, outer).insns, |a.insns|, i);
      }
    case _ =>
  }

  lemma {:induction false} GenJumpsPair(a: Asm, n: Node, outer: Outer)
    requires n.And? || n.Or?
    ensures JumpsResolved(Gen(a, n, outer).insns, |a.insns|)
    decreases n, 0
  {
    PairShape(a, n, outer);
    GenJumps(Open(a, n, outer), n.a, InnerOf(n));
    GenJumps(AfterJump(a, n, outer), n.b, InnerOf(n));
    JumpsOfPair(a.insns, Open(a, n, outer).insns, Gen(Open(a, n, outer), n.a, InnerOf(n)).insns, AfterJump(a, n, outer).insns,
                AfterSecond(a, n, outer).insns, Gen(a, n, outer).insns, a.labels);
  }

  lemma JumpsOfPair(c: seq<Insn>, c0: seq<Insn>, c0': seq<Insn>, c1: seq<Insn>, c2: seq<Insn>, code: seq<Insn>, l: int)
    requires c <= c0 <= c0' <= c1 <= c2 <= code && |c1| == |c0'| + 1 && |code| > |c2|
    requires forall i :: |c| <= i < |c0| ==> !IsJump(c0[i].op)
    requires JumpsResolved(c0', |c0|)
    requires c1[|c0'|].arg == l
    requires JumpsResolved(c2, |c1|)
    requires code[|code| - 1] == Insn(LABEL, l) && forall i :: |c2| <= i < |code| ==> !IsJump(code[i].op)
    ensures JumpsResolved(code, |c|)
  {
    forall i | |c| <= i < |code| && IsJump(code[i].op)
      ensures LabelAfter(code, i, code[i].arg)
    {
      assert code[..|c0|] == c0;
      if i < |c0'| {
        assert code[i] == c0'[i];
        JumpsStayResolved(c0', code, |c0|, i);
      } else if i == |c0'| {
        assert code[i] == c1[i];
      } else if i < |c2| {
        assert code[i] == c2[i];
        JumpsStayResolved(c2, code, |c1|, i);
      }
    }
  }

  /** Each test that needs the string register comes right after a LOADS, each
      string number is that of a stored string, and nothing returns. */
  predicate StringsReady(code: seq<Insn>, lo: nat, count: nat) {
    forall i {:trigger StringReady(code, i, lo, count)} :: lo <= i < |code| ==> StringReady(code, i, lo, count)
  }

  predicate StringReady(code: seq<Insn>, i: nat, lo: nat, count: nat)
    requires i < |code|
  {
    && (UsesS(code[i].op) ==> i > lo && code[i - 1].op == LOADS)
    && (HasString(code[i].op) ==> 0 <= code[i].arg < count)
    && code[i].op != RET
  }

  lemma StringsReadyJoin(c: seq<Insn>, d: seq<Insn>, lo: nat, count: nat, count': nat)
    requires c <= d && lo <= |c| && count <= count'
    requires StringsReady(c, lo, count) && StringsReady(d, |c|, count')
    ensures StringsReady(d, lo, count')
  {
    forall i | lo <= i < |d|
      ensures StringReady(d, i, lo, count')
    {
      if i < |c| {
        assert d[i] == c[i] && StringReady(c, i, lo, count);
        if i > 0 { assert d[i - 1] == c[i - 1]; }
      } else {
        assert StringReady(d, i, |c|, count');
      }
    }
  }

  lemma {:induction false} GenStrings(a: Asm, n: Node, outer: Outer)
    ensures StringsReady(Gen(a, n, outer).insns, |a.insns|, |Gen(a, n, outer).strs|)
    decreases n, 1
  {
    if n.And? || n.Or? {
      GenStringsPair(a, n, outer);
    } else if n.Not? {
      GenStrings(a, n.n, UnderNot);
      GenExtends(a, n.n, UnderNot);
      StringsReadyAppend(Gen(a, n.n, UnderNot), |a.insns|, NEGR, 0);
    } else {
      GenStringsAtom(a, n);
    }
  }

  lemma StringsReadyAppend(a: Asm, lo: nat, op: Op, arg: int)
    requires lo <= |a.insns| && StringsReady(a.insns, lo, |a.strs|)
    requires !UsesS(op) && !HasString(op) && op != RET
    ensures StringsReady(Append(a, op, arg).insns, lo, |a.strs|)
  {
    var b := Append(a, op, arg);
    assert StringReady(b.insns, |a.insns|, |a.insns|, |a.strs|);
    StringsReadyJoin(a.insns, b.insns, lo, |a.strs|, |a.strs|);
  }

  lemma GenStringsAtom(a: Asm, n: Node)
    requires IsAtom(n)
    ensures StringsReady(GenAtom(a, n).insns, |a.insns|, |GenAtom(a, n).strs|)
  {
    hide GenAtom, AtomInsns;
    AtomShape(a, n);
    AtomPlain(a, n);
    AtomStrings(a, n);
    var g, lo := GenAtom(a, n), |a.insns|;
    forall i | lo <= i < |g.insns| ensures StringReady(g.insns, i, lo, |g.strs|) {
      assert g.insns[i] == AtomInsns(a, n)[i - lo];
    }
  }

  lemma {:induction false} GenStringsPair(a: Asm, n: Node, outer: Outer)
    requires n.And? || n.Or?
    ensures StringsReady(Gen(a, n, outer).insns, |a.insns|, |Gen(a, n, outer).strs|)
    decreases n, 0
  {
    PairShape(a, n, outer);
    var a0, a1, a2 := Open(a, n, outer), AfterJump(a, n, outer), AfterSecond(a, n, outer);
    var a0' := Gen(a0, n.a, InnerOf(n));
    GenStrings(a0, n.a, InnerOf(n));
    GenStrings(a1, n.b, InnerOf(n));
    StringsReadyJoin(a0.insns, a0'.insns, |a.insns|, |a.strs|, |a0'.strs|);
    StringsReadyAppend(a0', |a.insns|, JumpOf(n), a.labels);
    StringsReadyJoin(a1.insns, a2.insns, |a.insns|, |a1.strs|, |a2.strs|);
    if Parens(n, outer) {
      StringsReadyAppend(a2, |a.insns|, PAREN, 1);
      StringsReadyAppend(Append(a2, PAREN, 1), |a.insns|, LABEL, a.labels);
    } else {
      StringsReadyAppend(a2, |a.insns|, LABEL, a.labels);
    }
  }

  /** Code that ends in its only RET and has its strings ready. */
  predicate Rounded(code: seq<Insn>, count: nat) {
    && |code| > 0
    && code[|code| - 1].op == RET
    && (forall i {:trigger StringReady(code, i, 0, count)} :: 0 <= i < |code| - 1 ==> StringReady(code, i, 0, count))
  }

  /** Code that the later stages can work on. */
  predicate WellFormed(code: seq<Insn>, count: nat) {
    Rounded(code, count) && UniqueLabels(code) && JumpsResolved(code, 0)
  }

  lemma GenerateWellFormed(n: Node)
    ensures WellFormed(Generate(n).insns, |Generate(n).strs|)
  {
    var a := Asm([], [], 0);
    GenLabels(a, n, Alone);
    GenJumps(a, n, Alone);
    GenStrings(a, n, Alone);
    var g, code := Gen(a, n, Alone), Generate(n).insns;
    assert code[..|g.insns|] == g.insns;
    forall i | 0 <= i < |code| - 1
      ensures StringReady(code, i, 0, |g.strs|)
    {
      assert StringReady(g.insns, i, 0, |g.strs|);
      if i > 0 { assert code[i - 1] == g.insns[i - 1]; }
    }
    LabelRangeJoin(g.insns, code, 0, 0, g.labels, g.labels);
    forall i | 0 <= i < |code| && IsJump(code[i].op)
      ensures LabelAfter(code, i, code[i].arg)
    {
      JumpsStayResolved(g.insns, code, 0, i);
    }
  }

  // ----- Generated code computes the value of the tree

  lemma LabelPosUnique(code: seq<Insn>, k: nat)
    requires UniqueLabels(code) && k < |code| && code[k].op == LABEL
    ensures LabelPos(code, code[k].arg) == k
  {
  }

  /** Running the code of `n`, wherever it stands, leaves the value of `n` in
      the result register, having made the same probes. */
  lemma {:induction false} GenRuns<S>(w: World<S>, a: Asm, n: Node, outer: Outer, code: seq<Insn>, strs: seq<Text>,
                                      r: bool, sr: int, s: S) returns (sr': int)
    requires Gen(a, n, outer).insns <= code && Gen(a, n, outer).strs <= strs
    requires UniqueLabels(code)
    ensures var (r', s') := EvalNode(w, n, r, s);
            Run(w, code, strs, Regs(|a.insns|, r, sr, s)) == Run(w, code, strs, Regs(|Gen(a, n, outer).insns|, r', sr', s'))
    decreases n, 1
  {
    hide Gen, GenPair, GenAtom, Run, EvalNode, UniqueLabels;
    if n.And? || n.Or? {
      sr' := GenRunsPair(w, a, n, outer, code, strs, r, sr, s);
    } else if n.Not? {
      GenIs(a, n, outer);
      var g := Gen(a, n.n, UnderNot);
      sr' := GenRuns(w, a, n.n, UnderNot, code, strs, r, sr, s);
      var (r1, s1) := EvalNode(w, n.n, r, s);
      assert code[|g.insns|] == Insn(NEGR, 0);
      RunTest(w, code, strs, |g.insns|, r1, sr', s1);
      EvalNot(w, n, r, s);
    } else if n.Ind? || n.Atr? || n.Eval? {
      sr' := GenRunsLoaded(w, a, n, outer, code, strs, r, sr, s);
    } else {
      sr' := sr;
      GenRunsAtom(w, a, n, outer, code, strs, r, sr, s);
    }
  }

  lemma EvalNot<S>(w: World<S>, n: Node, r: bool, s: S)
    requires n.Not?
    ensures EvalNode(w, n, r, s) == var (r1, s1) := EvalNode(w, n.n, r, s); (!r1, s1)
  {
  }

  /** One step of an instruction that neither jumps, loads a string nor returns. */
  lemma RunTest<S>(w: World<S>, code: seq<Insn>, strs: seq<Text>, i: nat, r: bool, sr: int, s: S)
    requires i < |code| && code[i].op != RET && !IsJump(code[i].op) && code[i].op != LOADS
    ensures var (r', s') := Test(w, code[i].op, code[i].arg, StringNo(strs, sr), StringNo(strs, code[i].arg), r, s);
            Run(w, code, strs, Regs(i, r, sr, s)) == Run(w, code, strs, Regs(i + 1, r', sr, s'))
  {
  }

  lemma RunLoad<S>(w: World<S>, code: seq<Insn>, strs: seq<Text>, i: nat, r: bool, sr: int, s: S)
    requires i < |code| && code[i].op == LOADS
    ensures Run(w, code, strs, Regs(i, r, sr, s)) == Run(w, code, strs, Regs(i + 1, r, code[i].arg, s))
  {
  }

  lemma GenRunsAtom<S>(w: World<S>, a: Asm, n: Node, outer: Outer, code: seq<Insn>, strs: seq<Text>,
                       r: bool, sr: int, s: S)
    requires n.Is? || n.Carry? || n.Owner? || n.Const? || n.Bool? || n.Flag?
    requires Gen(a, n, outer).insns <= code && Gen(a, n, outer).strs <= strs
    ensures var (r', s') := EvalNode(w, n, r, s);
            Run(w, code, strs, Regs(|a.insns|, r, sr, s)) == Run(w, code, strs, Regs(|Gen(a, n, outer).insns|, r', sr, s'))
  {
    hide Run, Gen, GenAtom, AtomInsns, Test, EvalNode, StringNo, FindString;
    GenIs(a, n, outer);
    AtomShape(a, n);
    AtomPlain(a, n);
    FlagText(a, n, strs);
    var g, i := AtomInsns(a, n), |a.insns|;
    assert code[i] == g[0];
    RunTest(w, code, strs, i, r, sr, s);
    TestAtom(w, a, n, StringNo(strs, sr), StringNo(strs, g[0].arg), r, s);
  }

  /** The test of an atom that does not use the string register is its value. */
  lemma TestAtom<S>(w: World<S>, a: Asm, n: Node, name: Text, text: Text, r: bool, s: S)
    requires n.Is? || n.Carry? || n.Owner? || n.Const? || n.Bool? || n.Flag?
    requires n.Flag? ==> text == n.text
    ensures var g := AtomInsns(a, n); |g| == 1 && Test(w, g[0].op, g[0].arg, name, text, r, s) == EvalNode(w, n, r, s)
  {
    hide FindString, TestLive, TestIs, TestCarry, TestConst, TestType;
  }

  /** And so is that of one that does. */
  lemma TestLoaded<S>(w: World<S>, a: Asm, n: Node, name: Text, text: Text, r: bool, s: S)
    requires n.Ind? || n.Atr? || n.Eval?
    requires name == (if n.Ind? then n.lock else n.name) && (!n.Ind? ==> text == n.text)
    ensures var g := AtomInsns(a, n); |g| == 2 && Test(w, g[1].op, g[1].arg, name, text, r, s) == EvalNode(w, n, r, s)
  {
    hide FindString, TestLive, TestIs, TestCarry, TestConst, TestType;
  }

  lemma GenRunsLoaded<S>(w: World<S>, a: Asm, n: Node, outer: Outer, code: seq<Insn>, strs: seq<Text>,
                         r: bool, sr: int, s: S) returns (sr': int)
    requires n.Ind? || n.Atr? || n.Eval?
    requires Gen(a, n, outer).insns <= code && Gen(a, n, outer).strs <= strs
    ensures var (r', s') := EvalNode(w, n, r, s);
            Run(w, code, strs, Regs(|a.insns|, r, sr, s)) == Run(w, code, strs, Regs(|Gen(a, n, outer).insns|, r', sr', s'))
  {
    hide Run, Gen, GenAtom, AtomInsns, Test, EvalNode, StringNo, FindString, AppendString;
    GenIs(a, n, outer);
    AtomShape(a, n);
    AtomPlain(a, n);
    LoadedText(a, n, strs);
    var g, i := AtomInsns(a, n), |a.insns|;
    assert code[i] == g[0] && code[i + 1] == g[1];
    sr' := g[0].arg;
    RunLoad(w, code, strs, i, r, sr, s);
    RunTest(w, code, strs, i + 1, r, sr', s);
    TestLoaded(w, a, n, StringNo(strs, sr'), StringNo(strs, g[1].arg), r, s);
  }

  lemma EvalPair<S>(w: World<S>, n: Node, r: bool, s: S)
    requires n.And? || n.Or?
    ensures EvalNode(w, n, r, s) ==
            var (r1, s1) := EvalNode(w, n.a, r, s);
            if r1 == n.Or? then (r1, s1) else EvalNode(w, n.b, r1, s1)
  {
  }

  lemma {:induction false} GenRunsPair<S>(w: World<S>, a: Asm, n: Node, outer: Outer, code: seq<Insn>, strs: seq<Text>,
                                          r: bool, sr: int, s: S) returns (sr': int)
    requires n.And? || n.Or?
    requires Gen(a, n, outer).insns <= code && Gen(a, n, outer).strs <= strs
    requires UniqueLabels(code)
    ensures var (r', s') := EvalNode(w, n, r, s);
            Run(w, code, strs, Regs(|a.insns|, r, sr, s)) == Run(w, code, strs, Regs(|Gen(a, n, outer).insns|, r', sr', s'))
    decreases n, 0
  {
    hide Run, Gen, GenPair, EvalNode, UniqueLabels, Open, AfterJump, AfterSecond;
    PairInCode(a, n, outer, code, strs);
    var a0, a1, a2 := Open(a, n, outer), AfterJump(a, n, outer), AfterSecond(a, n, outer);
    var g := |Gen(a, n, outer).insns|;
    var (r1, s1) := EvalNode(w, n.a, r, s);
    EvalPair(w, n, r, s);
    SkipParen(w, code, strs, |a.insns|, |a0.insns|, r, sr, s);
    var sr1 := GenRuns(w, a0, n.a, InnerOf(n), code, strs, r, sr, s);
    JumpOver(w, code, strs, |a1.insns| - 1, g - 1, n.Or?, r1, sr1, s1);
    if r1 == n.Or? {
      sr' := sr1;
    } else {
      sr' := GenRuns(w, a1, n.b, InnerOf(n), code, strs, r1, sr1, s1);
      var (r2, s2) := EvalNode(w, n.b, r1, s1);
      SkipParen(w, code, strs, |a2.insns|, g - 1, r2, sr', s2);
      SkipParen(w, code, strs, g - 1, g, r2, sr', s2);
    }
  }

  /** Where the parts of an AND or OR are in a longer code. */
  lemma PairInCode(a: Asm, n: Node, outer: Outer, code: seq<Insn>, strs: seq<Text>)
    requires n.And? || n.Or?
    requires Gen(a, n, outer).insns <= code && Gen(a, n, outer).strs <= strs
    ensures var a0, a1, a2 := Open(a, n, outer), AfterJump(a, n, outer), AfterSecond(a, n, outer);
            var a0', g, p := Gen(a0, n.a, InnerOf(n)), |Gen(a, n, outer).insns|, Parens(n, outer);
            && |a0.insns| <= |a0'.insns| && a0'.insns <= code && a0'.strs <= strs && a2 == Gen(a1, n.b, InnerOf(n)) && a2.insns <= code && a2.strs <= strs
            && |a0.insns| == |a.insns| + (if p then 1 else 0) && g == |a2.insns| + (if p then 2 else 1)
            && |a1.insns| == |a0'.insns| + 1 <= |a2.insns|
            && (p ==> code[|a.insns|] == Insn(PAREN, 0) && code[|a2.insns|] == Insn(PAREN, 1))
            && code[|a1.insns| - 1] == Insn(JumpOf(n), a.labels) && code[g - 1] == Insn(LABEL, a.labels)
  {
    PairShape(a, n, outer);
    assert AfterSecond(a, n, outer) == Gen(AfterJump(a, n, outer), n.b, InnerOf(n));
    hide Gen, GenPair, Open, AfterJump, AfterSecond;
    PairSlices(a.insns, Open(a, n, outer).insns, Gen(Open(a, n, outer), n.a, InnerOf(n)).insns, AfterJump(a, n, outer).insns,
               AfterSecond(a, n, outer).insns, Gen(a, n, outer).insns, code, Parens(n, outer));
    assert Extends(AfterJump(a, n, outer), AfterSecond(a, n, outer));
  }

  lemma PairSlices(c: seq<Insn>, c0: seq<Insn>, c0': seq<Insn>, c1: seq<Insn>, c2: seq<Insn>, g: seq<Insn>,
          code: seq<Insn>, parens: bool)
    requires c <= c0 <= c0' <= c1 <= c2 <= g <= code
    requires c0 == c + (if parens then [Insn(PAREN, 0)] else []) && |c1| == |c0'| + 1
    requires |g| == |c2| + (if parens then 2 else 1) && (parens ==> g[|c2|] == Insn(PAREN, 1))
    ensures c0' <= code && c1 <= code && c2 <= code && code[|c1| - 1] == c1[|c1| - 1] && code[|g| - 1] == g[|g| - 1]
    ensures parens ==> code[|c|] == Insn(PAREN, 0) && code[|c2|] == Insn(PAREN, 1)
  {
    assert code[..|c1|] == c1 && code[..|g|] == g;
    if parens { assert code[|c|] == c0[|c|]; }
  }

  /** What follows a parenthesis or a label, if there is one, is what counts. */
  lemma SkipParen<S>(w: World<S>, code: seq<Insn>, strs: seq<Text>, i: nat, j: nat, r: bool, sr: int, s: S)
    requires i <= j <= i + 1 && j <= |code| && (j == i + 1 ==> code[i].op == PAREN || code[i].op == LABEL)
    ensures Run(w, code, strs, Regs(i, r, sr, s)) == Run(w, code, strs, Regs(j, r, sr, s))
  {
  }

  /** The jump of an OR (`t`) or an AND (`!t`) at `j`, whose label is at `k`. */
  lemma JumpOver<S>(w: World<S>, code: seq<Insn>, strs: seq<Text>, j: nat, k: nat, t: bool, r: bool, sr: int, s: S)
    requires j < k < |code| && UniqueLabels(code)
    requires code[j].op == (if t then JMPT else JMPF) && code[k] == Insn(LABEL, code[j].arg)
    ensures Run(w, code, strs, Regs(j, r, sr, s)) == Run(w, code, strs, Regs(if r == t then k + 1 else j + 1, r, sr, s))
  {
    LabelPosUnique(code, k);
    assert Run(w, code, strs, Regs(k, r, sr, s)) == Run(w, code, strs, Regs(k + 1, r, sr, s));
  }

  /** The first half of the compiler is correct. */
  lemma GenerateCorrect<S>(w: World<S>, n: Node, sr: int, s: S)
    ensures Run(w, Generate(n).insns, Generate(n).strs, Regs(0, false, sr, s)) == EvalNode(w, n, false, s)
  {
    GenerateWellFormed(n);
    var g := Gen(Asm([], [], 0), n, Alone);
    var sr' := GenRuns(w, Asm([], [], 0), n, Alone, Generate(n).insns, Generate(n).strs, false, sr, s);
    assert Generate(n).insns[|g.insns|] == Insn(RET, 0);
  }
}
