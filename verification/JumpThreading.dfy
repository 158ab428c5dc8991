/** Jump threading: a jump that would land on another jump is sent where it
    would end up anyway. */
module JumpThreading {
  import opened Bytes
  import opened LockTree
  import opened LockAsm

  // ----- Where a jump lands

  /** The first instruction at or after `i` that is not a label. */
  function SkipLabels(code: seq<Insn>, i: nat): (k: nat)
    ensures i <= |code| ==> i <= k <= |code|
    ensures k < |code| ==> code[k].op != LABEL
    ensures forall j :: i <= j < k && j < |code| ==> code[j].op == LABEL
    decreases |code| - i
  {
    if i < |code| && code[i].op == LABEL then SkipLabels(code, i + 1) else i
  }

  /** The instruction a jump to `l` goes to, or the end of the code if there is
      no such label. */
  function Target(code: seq<Insn>, l: int): nat {
    SkipLabels(code, LabelPos(code, l))
  }

  predicate LandsOnJump(code: seq<Insn>, i: nat)
    requires i < |code|
  {
    var t := Target(code, code[i].arg);
    IsJump(code[i].op) && t < |code| && IsJump(code[t].op)
  }

  // ----- The two rewrites

  function Redirect(code: seq<Insn>, n: nat, l: int): seq<Insn>
    requires n < |code|
  {
    code[n := Insn(code[n].op, l)]
  }

  /** Put a new label right after instruction `t`. */
  function InsertLabel(code: seq<Insn>, t: nat, l: int): seq<Insn>
    requires t < |code|
  {
    code[..t + 1] + [Insn(LABEL, l)] + code[t + 1..]
  }

  /** Where instruction `i` is after a label has been put after `t`. */
  function Moved(t: nat, i: nat): nat {
    if i <= t then i else i + 1
  }

  /** Labels are unique and below `labels`, and every jump goes forward. */
  predicate Threadable(code: seq<Insn>, labels: nat) {
    LabelRange(code, 0, 0, labels) && JumpsResolved(code, 0)
  }

  /** Send the jump at `n`, which lands on a jump, one jump further. */
  function ThreadOnce(code: seq<Insn>, labels: nat, n: nat): (seq<Insn>, nat)
    requires n < |code| && LandsOnJump(code, n)
  {
    var t := Target(code, code[n].arg);
    if code[t].op == code[n].op then
      (Redirect(code, n, code[t].arg), labels)
    else
      (Redirect(InsertLabel(code, t, labels), n, labels), labels + 1)
  }

  function Thread(code: seq<Insn>, labels: nat, n: nat): (seq<Insn>, nat)
    requires Threadable(code, labels)
    decreases Real(code, n), LeadingLabels(code, n), Reach(code, n)
  {
    if n >= |code| then (code, labels)
    else if LandsOnJump(code, n) then
      ThreadOnceThreadable(code, labels, n);
      ThreadOnceDecreases(code, labels, n);
      var (code', labels') := ThreadOnce(code, labels, n);
      Thread(code', labels', n)
    else Thread(code, labels, n + 1)
  }

  lemma InsertAt(code: seq<Insn>, t: nat, l: int, i: nat)
    requires t < |code|
    ensures |InsertLabel(code, t, l)| == |code| + 1
    ensures i < |code| ==> InsertLabel(code, t, l)[Moved(t, i)] == code[i]
    ensures InsertLabel(code, t, l)[t + 1] == Insn(LABEL, l)
  {
  }

  // ----- The measure

  /** The number of instructions other than labels from `i` on. */
  function Real(code: seq<Insn>, i: nat): nat
    decreases |code| - i
  {
    if i >= |code| then 0 else (if code[i].op == LABEL then 0 else 1) + Real(code, i + 1)
  }

  function LeadingLabels(code: seq<Insn>, n: nat): nat {
    if n > |code| then 0 else SkipLabels(code, n) - n
  }

  /** How much code is left where the jump at `n` lands. */
  function Reach(code: seq<Insn>, n: nat): nat {
    if n < |code| && IsJump(code[n].op) then Real(code, Target(code, code[n].arg)) else 0
  }

  lemma {:induction false} RealFalls(code: seq<Insn>, i: nat, j: nat)
    requires i <= j
    ensures Real(code, j) <= Real(code, i)
    ensures i < j && i < |code| && code[i].op != LABEL ==> Real(code, j) < Real(code, i)
    decreases |code| - i
  {
    if i < |code| && i < j { RealFalls(code, i + 1, j); }
  }

  lemma {:induction false} RealSkips(code: seq<Insn>, i: nat)
    ensures Real(code, SkipLabels(code, i)) == Real(code, i)
    decreases |code| - i
  {
    if i < |code| && code[i].op == LABEL { RealSkips(code, i + 1); }
  }

  lemma {:induction false} RealRedirect(code: seq<Insn>, n: nat, l: int, i: nat)
    requires n < |code| && code[n].op != LABEL
    ensures Real(Redirect(code, n, l), i) == Real(code, i)
    decreases |code| - i
  {
    if i < |code| { RealRedirect(code, n, l, i + 1); }
  }

  lemma {:induction false} RealInsert(code: seq<Insn>, t: nat, l: int, i: nat)
    requires t < |code|
    ensures Real(InsertLabel(code, t, l), Moved(t, i)) == Real(code, i)
    decreases |code| - i
  {
    if i < |code| {
      RealInsert(code, t, l, i + 1);
      assert InsertLabel(code, t, l)[Moved(t, i)] == code[i];
      if i == t { assert InsertLabel(code, t, l)[t + 1].op == LABEL; }
    }
  }

  // ----- Labels after a rewrite

  lemma LabelPosIs(code: seq<Insn>, l: int, k: nat)
    requires k <= |code| && (k < |code| ==> code[k] == Insn(LABEL, l))
    requires forall j :: 0 <= j < k ==> code[j] != Insn(LABEL, l)
    ensures LabelPos(code, l) == k
  {
  }

  lemma LabelPosRedirect(code: seq<Insn>, n: nat, l: int, m: int)
    requires n < |code| && code[n].op != LABEL
    ensures LabelPos(Redirect(code, n, l), m) == LabelPos(code, m)
  {
    LabelPosIs(Redirect(code, n, l), m, LabelPos(code, m));
  }

  lemma LabelPosInsert(code: seq<Insn>, t: nat, l: int, m: int)
    requires t < |code| && m != l && code[t].op != LABEL
    ensures LabelPos(InsertLabel(code, t, l), m) == Moved(t, LabelPos(code, m))
  {
    var ins, k := InsertLabel(code, t, l), LabelPos(code, m);
    assert forall j :: 0 <= j < |code| ==> ins[Moved(t, j)] == code[j];
    forall j | 0 <= j < Moved(t, k)
      ensures ins[j] != Insn(LABEL, m)
    {
      assert j != t + 1 ==> ins[j] == code[if j <= t then j else j - 1];
    }
    LabelPosIs(ins, m, Moved(t, k));
  }

  lemma LabelPosFresh(code: seq<Insn>, t: nat, l: int)
    requires t < |code| && LabelRange(code, 0, 0, l)
    ensures LabelPos(InsertLabel(code, t, l), l) == t + 1
  {
    LabelPosIs(InsertLabel(code, t, l), l, t + 1);
  }

  lemma {:induction false} SkipLabelsRedirect(code: seq<Insn>, n: nat, l: int, i: nat)
    requires n < |code| && code[n].op != LABEL
    ensures SkipLabels(Redirect(code, n, l), i) == SkipLabels(code, i)
    decreases |code| - i
  {
    if i < |code| { SkipLabelsRedirect(code, n, l, i + 1); }
  }

  lemma {:induction false} SkipLabelsInsert(code: seq<Insn>, t: nat, l: int, i: nat)
    requires t < |code| && code[t].op != LABEL && i <= |code|
    ensures SkipLabels(InsertLabel(code, t, l), Moved(t, i)) == Moved(t, SkipLabels(code, i))
    decreases |code| - i
  {
    if i < |code| {
      assert InsertLabel(code, t, l)[Moved(t, i)] == code[i];
      SkipLabelsInsert(code, t, l, i + 1);
    }
  }

  lemma TargetRedirect(code: seq<Insn>, n: nat, l: int, m: int)
    requires n < |code| && code[n].op != LABEL
    ensures Target(Redirect(code, n, l), m) == Target(code, m)
  {
    LabelPosRedirect(code, n, l, m);
    SkipLabelsRedirect(code, n, l, LabelPos(code, m));
  }

  lemma TargetInsert(code: seq<Insn>, t: nat, l: int, m: int)
    requires t < |code| && m != l && code[t].op != LABEL
    ensures Target(InsertLabel(code, t, l), m) == Moved(t, Target(code, m))
  {
    LabelPosInsert(code, t, l, m);
    SkipLabelsInsert(code, t, l, LabelPos(code, m));
  }

  // ----- One step keeps the code threadable and makes progress

  /** A resolved jump lands further on. */
  lemma TargetAhead(code: seq<Insn>, labels: nat, i: nat)
    requires Threadable(code, labels) && i < |code| && IsJump(code[i].op)
    ensures i < LabelPos(code, code[i].arg) < |code|
    ensures i < LabelPos(code, code[i].arg) <= Target(code, code[i].arg)
    ensures 0 <= code[i].arg < labels
  {
    assert LabelAfter(code, i, code[i].arg);
    var k :| i < k < |code| && code[k] == Insn(LABEL, code[i].arg);
    LabelPosIs(code, code[i].arg, k) by {
      forall j | 0 <= j < k ensures code[j] != Insn(LABEL, code[i].arg) {}
    }
  }

  lemma RedirectThreadable(code: seq<Insn>, labels: nat, n: nat, l: int)
    requires Threadable(code, labels) && n < |code| && IsJump(code[n].op)
    requires n < LabelPos(code, l) < |code|
    ensures Threadable(Redirect(code, n, l), labels)
  {
    var code' := Redirect(code, n, l);
    forall i | 0 <= i < |code'| && IsJump(code'[i].op)
      ensures LabelAfter(code', i, code'[i].arg)
    {
      LabelPosRedirect(code, n, l, code'[i].arg);
      if i != n { TargetAhead(code, labels, i); }
      assert code'[LabelPos(code', code'[i].arg)] == Insn(LABEL, code'[i].arg);
    }
  }

  lemma InsertThreadable(code: seq<Insn>, labels: nat, t: nat)
    requires Threadable(code, labels) && t < |code| && code[t].op != LABEL
    ensures Threadable(InsertLabel(code, t, labels), labels + 1)
  {
    var ins := InsertLabel(code, t, labels);
    forall i | 0 <= i < |ins| && IsJump(ins[i].op)
      ensures LabelAfter(ins, i, ins[i].arg)
    {
      InsertResolved(code, labels, t, i);
    }
    InsertRange(code, labels, t);
  }

  lemma InsertResolved(code: seq<Insn>, labels: nat, t: nat, i: nat)
    requires Threadable(code, labels) && t < |code| && code[t].op != LABEL
    requires i < |InsertLabel(code, t, labels)| && IsJump(InsertLabel(code, t, labels)[i].op)
    ensures LabelAfter(InsertLabel(code, t, labels), i, InsertLabel(code, t, labels)[i].arg)
  {
    var ins := InsertLabel(code, t, labels);
    var j := if i <= t then i else i - 1;
    assert ins[i] == code[j];
    TargetAhead(code, labels, j);
    LabelPosInsert(code, t, labels, ins[i].arg);
    hide Threadable, InsertLabel, Target;
    assert ins[LabelPos(ins, ins[i].arg)] == Insn(LABEL, ins[i].arg);
  }

  lemma InsertRange(code: seq<Insn>, labels: nat, t: nat)
    requires LabelRange(code, 0, 0, labels) && t < |code|
    ensures LabelRange(InsertLabel(code, t, labels), 0, 0, labels + 1)
  {
    var ins := InsertLabel(code, t, labels);
    assert forall i :: 0 <= i < |ins| ==> ins[i] == if i <= t then code[i] else if i == t + 1 then Insn(LABEL, labels) else code[i - 1];
  }

  lemma ThreadOnceThreadable(code: seq<Insn>, labels: nat, n: nat)
    requires Threadable(code, labels) && n < |code| && LandsOnJump(code, n)
    ensures var (code', labels') := ThreadOnce(code, labels, n); Threadable(code', labels')
    ensures n < Target(code, code[n].arg)
  {
    var t := Target(code, code[n].arg);
    TargetAhead(code, labels, n);
    TargetAhead(code, labels, t);
    if code[t].op == code[n].op {
      RedirectThreadable(code, labels, n, code[t].arg);
    } else {
      InsertThreadable(code, labels, t);
      LabelPosFresh(code, t, labels);
      RedirectThreadable(InsertLabel(code, t, labels), labels + 1, n, labels);
    }
  }

  /** The jump lands on ever less code. */
  lemma ThreadOnceDecreases(code: seq<Insn>, labels: nat, n: nat)
    requires Threadable(code, labels) && n < |code| && LandsOnJump(code, n)
    ensures var code' := ThreadOnce(code, labels, n).0;
            && Real(code', n) == Real(code, n)
            && LeadingLabels(code', n) == LeadingLabels(code, n) == 0
            && Reach(code', n) < Reach(code, n)
  {
    var t := Target(code, code[n].arg);
    TargetAhead(code, labels, n);
    TargetAhead(code, labels, t);
    if code[t].op == code[n].op {
      var l := code[t].arg;
      RealRedirect(code, n, l, n);
      TargetRedirect(code, n, l, l);
      RealRedirect(code, n, l, Target(code, l));
      RealFalls(code, t, Target(code, l));
    } else {
      ReachInsert(code, labels, n, t);
    }
  }

  lemma ReachInsert(code: seq<Insn>, labels: nat, n: nat, t: nat)
    requires LabelRange(code, 0, 0, labels) && n < t < |code| && IsJump(code[n].op) && IsJump(code[t].op)
    ensures var code' := Redirect(InsertLabel(code, t, labels), n, labels);
            && Real(code', n) == Real(code, n)
            && LeadingLabels(code', n) == 0
            && Real(code', Target(code', labels)) < Real(code, t)
  {
    hide Real, LabelPos, LabelRange, InsertLabel;
    var ins := InsertLabel(code, t, labels);
    InsertAt(code, t, labels, n);
    InsertAt(code, t, labels, t);
    RealInsert(code, t, labels, n);
    RealRedirect(ins, n, labels, n);
    LabelPosFresh(code, t, labels);
    TargetRedirect(ins, n, labels, labels);
    RealRedirect(ins, n, labels, Target(ins, labels));
    RealSkips(ins, t + 1);
    RealInsert(code, t, labels, t);
    RealFalls(ins, t, t + 1);
  }

  // ----- Threading keeps the meaning

  ghost predicate SameRun<S>(w: World<S>, code: seq<Insn>, strs: seq<Text>, i: nat, j: nat, r: bool, sr: int, s: S) {
    Run(w, code, strs, Regs(i, r, sr, s)) == Run(w, code, strs, Regs(j, r, sr, s))
  }

  /** A jump may be sent to any place where running from gives the same. */
  lemma {:induction false} RedirectRuns<S(!new)>(w: World<S>, code: seq<Insn>, strs: seq<Text>, n: nat, l: int,
                                                 t: bool, c: Regs<S>)
    requires n < |code| && IsJump(code[n].op) && t == (code[n].op == JMPT)
    requires n < LabelPos(code, l) && n < LabelPos(code, code[n].arg)
    requires forall sr: int, s: S :: SameRun(w, code, strs, LabelPos(code, l), LabelPos(code, code[n].arg), t, sr, s)
    ensures Run(w, Redirect(code, n, l), strs, c) == Run(w, code, strs, c)
    decreases |code| - c.i
  {
    if c.i < |code| && code[c.i].op != RET {
      var code' := Redirect(code, n, l);
      LabelPosRedirect(code, n, l, code'[c.i].arg);
      var d := Step(w, code', strs, c);
      if d.i > c.i { RedirectRuns(w, code, strs, n, l, t, d); }
      assert c.i == n && c.r == t ==> SameRun(w, code, strs, LabelPos(code, l), LabelPos(code, code[n].arg), t, c.sr, c.s);
    }
  }

  /** A label nobody jumps to makes no difference. */
  lemma {:induction false} InsertRuns<S>(w: World<S>, code: seq<Insn>, strs: seq<Text>, t: nat, l: int, c: Regs<S>)
    requires t < |code| && code[t].op != LABEL
    requires forall j :: 0 <= j < |code| && IsJump(code[j].op) ==> code[j].arg != l
    ensures Run(w, InsertLabel(code, t, l), strs, c.(i := Moved(t, c.i))) == Run(w, code, strs, c)
    decreases |code| - c.i
  {
    hide InsertLabel, Run, LabelPos, Step, Moved, IsJump;
    var ins, c', d := InsertLabel(code, t, l), c.(i := Moved(t, c.i)), if c.i < |code| then Step(w, code, strs, c) else c;
    InsertAt(code, t, l, c.i);
    MovedAt(code, t, c.i, d.i);
    RunUnfold(w, code, strs, c);
    RunUnfold(w, ins, strs, c');
    if c.i < |code| && code[c.i].op != RET {
      InsertStep(w, code, strs, t, l, c);
      if d.i > c.i {
        InsertRuns(w, code, strs, t, l, d);
        InsertSkips(w, ins, strs, t, d);
      }
    }
  }

  /** Moving keeps the order and what is past the end. */
  lemma MovedAt(code: seq<Insn>, t: nat, i: nat, j: nat)
    requires t < |code|
    ensures (i < j <==> Moved(t, i) < Moved(t, j)) && (i < |code| <==> Moved(t, i) < |code| + 1) && Moved(t, t) == t && Moved(t, t + 1) == t + 2
  {
  }

  /** The label after `t`, on which the step from `t` itself stops. */
  lemma InsertSkips<S>(w: World<S>, ins: seq<Insn>, strs: seq<Text>, t: nat, d: Regs<S>)
    requires t + 1 < |ins| && ins[t + 1].op == LABEL
    ensures d.i == t + 1 ==> Run(w, ins, strs, d.(i := t + 1)) == Run(w, ins, strs, d.(i := Moved(t, d.i)))
  {
    SkipParen(w, ins, strs, t + 1, t + 2, d.r, d.sr, d.s);
    hide Run;
  }

  /** One step with the new label in the code: what comes after `t` comes one
      later, except that the step from `t` itself stops at the label first. */
  lemma InsertStep<S>(w: World<S>, code: seq<Insn>, strs: seq<Text>, t: nat, l: int, c: Regs<S>)
    requires t < |code| && code[t].op != LABEL && c.i < |code|
    requires forall j :: 0 <= j < |code| && IsJump(code[j].op) ==> code[j].arg != l
    requires |InsertLabel(code, t, l)| == |code| + 1 && InsertLabel(code, t, l)[Moved(t, c.i)] == code[c.i]
    ensures var d, d' := Step(w, code, strs, c), Step(w, InsertLabel(code, t, l), strs, c.(i := Moved(t, c.i)));
            d' == d.(i := Moved(t, d.i)) || (d.i == t + 1 && c.i == t && d' == d.(i := t + 1))
  {
    hide InsertLabel, LabelPos;
    var ins, i := InsertLabel(code, t, l), Moved(t, c.i);
    var jumps := IsJump(code[c.i].op) && c.r == (code[c.i].op == JMPT);
    if IsJump(code[c.i].op) { LabelPosInsert(code, t, l, code[c.i].arg); }
    if jumps { StepTo(w, code, strs, c); }
    hide Step;
    StepMoved(w, code, ins, strs, c, i, if jumps then Moved(t, Step(w, code, strs, c).i) else i + 1);
  }

  /** A jump that is taken goes to its label. */
  lemma StepTo<S>(w: World<S>, code: seq<Insn>, strs: seq<Text>, c: Regs<S>)
    requires c.i < |code| && IsJump(code[c.i].op) && c.r == (code[c.i].op == JMPT)
    ensures Step(w, code, strs, c).i == LabelPos(code, code[c.i].arg)
  {
    hide Test, LabelPos;
  }

  /** The same instruction elsewhere does the same. */
  lemma StepMoved<S>(w: World<S>, code: seq<Insn>, ins: seq<Insn>, strs: seq<Text>, c: Regs<S>, i: nat, to: nat)
    requires c.i < |code| && i < |ins| && ins[i] == code[c.i]
    requires var jumps := IsJump(code[c.i].op) && c.r == (code[c.i].op == JMPT);
             to == if jumps then LabelPos(ins, code[c.i].arg) else i + 1
    ensures Step(w, ins, strs, c.(i := i)) == Step(w, code, strs, c).(i := to)
    ensures !(IsJump(code[c.i].op) && c.r == (code[c.i].op == JMPT)) ==> Step(w, code, strs, c).i == c.i + 1
  {
    hide Test, LabelPos;
  }

  lemma RunUnfold<S>(w: World<S>, code: seq<Insn>, strs: seq<Text>, c: Regs<S>)
    ensures Run(w, code, strs, c) ==
            if c.i >= |code| || code[c.i].op == RET || Step(w, code, strs, c).i <= c.i then (c.r, c.s)
            else Run(w, code, strs, Step(w, code, strs, c))
  {
  }

  lemma {:induction false} SkipLabelsRuns<S>(w: World<S>, code: seq<Insn>, strs: seq<Text>, c: Regs<S>)
    ensures Run(w, code, strs, c.(i := SkipLabels(code, c.i))) == Run(w, code, strs, c)
    decreases |code| - c.i
  {
    if c.i < |code| && code[c.i].op == LABEL { SkipLabelsRuns(w, code, strs, c.(i := c.i + 1)); }
  }

  /** One step from an instruction that does not return. */
  lemma RunStep<S>(w: World<S>, code: seq<Insn>, strs: seq<Text>, c: Regs<S>)
    requires c.i < |code| && code[c.i].op != RET && Step(w, code, strs, c).i > c.i
    ensures Run(w, code, strs, c) == Run(w, code, strs, Step(w, code, strs, c))
  {
  }

  /** A jump may go on to where the jump it lands on, on the same condition, goes. */
  lemma ChainRuns<S(!new)>(w: World<S>, code: seq<Insn>, labels: nat, strs: seq<Text>, n: nat, c: Regs<S>)
    requires Threadable(code, labels) && n < |code| && LandsOnJump(code, n)
    requires code[Target(code, code[n].arg)].op == code[n].op
    ensures Run(w, ThreadOnce(code, labels, n).0, strs, c) == Run(w, code, strs, c)
  {
    hide Run;
    var l := code[n].arg;
    var t, b := Target(code, l), code[n].op == JMPT;
    TargetAhead(code, labels, n);
    TargetAhead(code, labels, t);
    forall sr': int, s': S
      ensures SameRun(w, code, strs, LabelPos(code, code[t].arg), LabelPos(code, l), b, sr', s')
    {
      SkipLabelsRuns(w, code, strs, Regs(LabelPos(code, l), b, sr', s'));
      RunStep(w, code, strs, Regs(t, b, sr', s'));
    }
    RedirectRuns(w, code, strs, n, code[t].arg, b, c);
  }

  /** A jump may go past the jump it lands on, on the other condition. */
  lemma BypassRuns<S(!new)>(w: World<S>, code: seq<Insn>, labels: nat, strs: seq<Text>, n: nat, c: Regs<S>)
    requires Threadable(code, labels) && n < |code| && LandsOnJump(code, n)
    requires code[Target(code, code[n].arg)].op != code[n].op
    ensures var t := Target(code, code[n].arg);
            Run(w, ThreadOnce(code, labels, n).0, strs, c.(i := Moved(t, c.i))) == Run(w, code, strs, c)
  {
    hide Run;
    var l := code[n].arg;
    var t, b := Target(code, l), code[n].op == JMPT;
    TargetAhead(code, labels, n);
    TargetAhead(code, labels, t);
    var ins := InsertLabel(code, t, labels);
    assert ins[n] == code[n] && ins[t] == code[t];
    LabelPosFresh(code, t, labels);
    LabelPosInsert(code, t, labels, l);
    TargetInsert(code, t, labels, l);
    forall sr': int, s': S
      ensures SameRun(w, ins, strs, LabelPos(ins, labels), LabelPos(ins, l), b, sr', s')
    {
      SkipLabelsRuns(w, ins, strs, Regs(LabelPos(ins, l), b, sr', s'));
      RunStep(w, ins, strs, Regs(t, b, sr', s'));
    }
    RedirectRuns(w, ins, strs, n, labels, b, c.(i := Moved(t, c.i)));
    forall j | 0 <= j < |code| && IsJump(code[j].op) ensures code[j].arg != labels { TargetAhead(code, labels, j); }
    InsertRuns(w, code, strs, t, labels, c);
  }

  /** Where instruction `i` is after one step. */
  function MovedOnce(code: seq<Insn>, n: nat, i: nat): nat
    requires n < |code| && LandsOnJump(code, n)
  {
    var t := Target(code, code[n].arg);
    if code[t].op == code[n].op then i else Moved(t, i)
  }

  /** Where instruction `i` is when threading from `n` on is done. */
  function MovedTo(code: seq<Insn>, labels: nat, n: nat, i: nat): nat
    requires Threadable(code, labels)
    decreases Real(code, n), LeadingLabels(code, n), Reach(code, n)
  {
    if n >= |code| then i
    else if LandsOnJump(code, n) then
      ThreadOnceThreadable(code, labels, n);
      ThreadOnceDecreases(code, labels, n);
      var (code', labels') := ThreadOnce(code, labels, n);
      MovedTo(code', labels', n, MovedOnce(code, n, i))
    else MovedTo(code, labels, n + 1, i)
  }

  /** Threading keeps the instructions in order, the first one first. */
  lemma {:induction false} MovedToOrder(code: seq<Insn>, labels: nat, n: nat, i: nat, j: nat)
    requires Threadable(code, labels) && i <= j < |code|
    ensures var code', k := Thread(code, labels, n).0, MovedTo(code, labels, n, i);
            k < |code'| && code'[k].op == code[i].op
    ensures var k, m := MovedTo(code, labels, n, i), MovedTo(code, labels, n, j);
            k <= m && (i < j ==> k < m) && (i == 0 ==> k == 0)
    decreases Real(code, n), LeadingLabels(code, n), Reach(code, n)
  {
    MovedToStep(code, labels, n, i);
    MovedToStep(code, labels, n, j);
    if n < |code| {
      if LandsOnJump(code, n) {
        ThreadOnceThreadable(code, labels, n);
        ThreadOnceDecreases(code, labels, n);
        MovedOnceKeeps(code, labels, n, i);
        MovedOnceKeeps(code, labels, n, j);
        MovedOnceOrder(code, n, i, j);
        hide *;
        var (code', labels') := ThreadOnce(code, labels, n);
        MovedToOrder(code', labels', n, MovedOnce(code, n, i), MovedOnce(code, n, j));
      } else {
        MovedToOrder(code, labels, n + 1, i, j);
      }
    }
  }

  lemma MovedToStep(code: seq<Insn>, labels: nat, n: nat, i: nat)
    requires Threadable(code, labels)
    ensures n >= |code| ==> MovedTo(code, labels, n, i) == i && Thread(code, labels, n) == (code, labels)
    ensures n < |code| && LandsOnJump(code, n) ==>
              var once := ThreadOnce(code, labels, n);
              && Threadable(once.0, once.1) && Thread(code, labels, n) == Thread(once.0, once.1, n)
              && MovedTo(code, labels, n, i) == MovedTo(once.0, once.1, n, MovedOnce(code, n, i))
    ensures n < |code| && !LandsOnJump(code, n) ==>
              Thread(code, labels, n) == Thread(code, labels, n + 1) && MovedTo(code, labels, n, i) == MovedTo(code, labels, n + 1, i)
  {
    hide Threadable, ThreadOnce, LandsOnJump, MovedOnce;
    if n < |code| && LandsOnJump(code, n) { ThreadOnceThreadable(code, labels, n); }
  }

  lemma MovedOnceOrder(code: seq<Insn>, n: nat, i: nat, j: nat)
    requires n < |code| && LandsOnJump(code, n) && i <= j
    ensures MovedOnce(code, n, i) <= MovedOnce(code, n, j) && (i < j ==> MovedOnce(code, n, i) < MovedOnce(code, n, j))
    ensures i == 0 ==> MovedOnce(code, n, i) == 0
  {
  }

  lemma MovedOnceKeeps(code: seq<Insn>, labels: nat, n: nat, i: nat)
    requires n < |code| && LandsOnJump(code, n) && i < |code|
    ensures var code', k := ThreadOnce(code, labels, n).0, MovedOnce(code, n, i);
            k < |code'| && code'[k].op == code[i].op
  {
    InsertAt(code, Target(code, code[n].arg), labels, i);
    InsertAt(code, Target(code, code[n].arg), labels, n);
  }

  /** Jump threading changes neither the result nor the probes, from whichever
      instruction on the code is run. */
  lemma {:induction false} ThreadRuns<S(!new)>(w: World<S>, code: seq<Insn>, labels: nat, strs: seq<Text>, n: nat,
                                               c: Regs<S>)
    requires Threadable(code, labels)
    ensures Run(w, Thread(code, labels, n).0, strs, c.(i := MovedTo(code, labels, n, c.i))) == Run(w, code, strs, c)
    decreases Real(code, n), LeadingLabels(code, n), Reach(code, n)
  {
    hide Run;
    if n < |code| {
      if LandsOnJump(code, n) {
        ThreadOnceThreadable(code, labels, n);
        ThreadOnceDecreases(code, labels, n);
        var (code', labels') := ThreadOnce(code, labels, n);
        if code[Target(code, code[n].arg)].op == code[n].op {
          ChainRuns(w, code, labels, strs, n, c);
        } else {
          BypassRuns(w, code, labels, strs, n, c);
        }
        ThreadRuns(w, code', labels', strs, n, c.(i := MovedOnce(code, n, c.i)));
      } else {
        ThreadRuns(w, code, labels, strs, n + 1, c);
      }
    }
  }

  // ----- Threading finishes its job

  predicate NoneLandOnJump(code: seq<Insn>, n: nat) {
    forall i :: 0 <= i < n && i < |code| ==> !LandsOnJump(code, i)
  }

  lemma ThreadOnceKeepsDone(code: seq<Insn>, labels: nat, n: nat)
    requires Threadable(code, labels) && n < |code| && LandsOnJump(code, n)
    requires NoneLandOnJump(code, n)
    ensures NoneLandOnJump(ThreadOnce(code, labels, n).0, n)
  {
    ThreadOnceThreadable(code, labels, n);
    forall i | 0 <= i < n
      ensures !LandsOnJump(ThreadOnce(code, labels, n).0, i)
    {
      ThreadOnceKeepsTarget(code, labels, n, i);
    }
  }

  lemma ThreadOnceKeepsTarget(code: seq<Insn>, labels: nat, n: nat, i: nat)
    requires Threadable(code, labels) && i < n < |code| && LandsOnJump(code, n) && n < Target(code, code[n].arg)
    requires !LandsOnJump(code, i)
    ensures !LandsOnJump(ThreadOnce(code, labels, n).0, i)
  {
    var t := Target(code, code[n].arg);
    if IsJump(code[i].op) { TargetAhead(code, labels, i); }
    hide Target, Threadable;
    if code[t].op == code[n].op {
      RedirectKeepsTarget(code, n, code[t].arg, i);
    } else {
      InsertKeepsTarget(code, labels, t, n, i);
    }
  }

  lemma RedirectKeepsTarget(code: seq<Insn>, n: nat, l: int, i: nat)
    requires i < n < |code| && IsJump(code[n].op) && !LandsOnJump(code, i)
    ensures !LandsOnJump(Redirect(code, n, l), i)
  {
    TargetRedirect(code, n, l, code[i].arg);
    hide Target;
  }

  lemma InsertKeepsTarget(code: seq<Insn>, labels: nat, t: nat, n: nat, i: nat)
    requires i < n < t < |code| && IsJump(code[n].op) && IsJump(code[t].op) && !LandsOnJump(code, i)
    requires IsJump(code[i].op) ==> code[i].arg != labels
    ensures !LandsOnJump(Redirect(InsertLabel(code, t, labels), n, labels), i)
  {
    var ins, l := InsertLabel(code, t, labels), code[i].arg;
    assert ins[n] == code[n] && ins[i] == code[i];
    if IsJump(code[i].op) {
      TargetInsert(code, t, labels, l);
      hide Target;
      assert Target(code, l) < |code| ==> ins[Moved(t, Target(code, l))] == code[Target(code, l)];
      RedirectKeepsTarget(ins, n, labels, i);
    }
  }

  /** When threading is done, no jump lands on a jump. */
  lemma {:induction false} ThreadFinishes(code: seq<Insn>, labels: nat, n: nat)
    requires Threadable(code, labels) && NoneLandOnJump(code, n)
    ensures var (code', labels') := Thread(code, labels, n);
            Threadable(code', labels') && NoneLandOnJump(code', |code'|)
    decreases Real(code, n), LeadingLabels(code, n), Reach(code, n)
  {
    if n < |code| {
      if LandsOnJump(code, n) {
        ThreadOnceThreadable(code, labels, n);
        ThreadOnceDecreases(code, labels, n);
        ThreadOnceKeepsDone(code, labels, n);
        var (code', labels') := ThreadOnce(code, labels, n);
        ThreadFinishes(code', labels', n);
      } else {
        ThreadFinishes(code, labels, n + 1);
      }
    }
  }

  // ----- What threading leaves alone

  /** The instructions without the labels and without where the jumps go. */
  function Skeleton(code: seq<Insn>): seq<Insn> {
    if code == [] then []
    else if code[0].op == LABEL then Skeleton(code[1..])
    else [if IsJump(code[0].op) then Insn(code[0].op, 0) else code[0]] + Skeleton(code[1..])
  }

  lemma {:induction false} SkeletonConcat(c: seq<Insn>, d: seq<Insn>)
    ensures Skeleton(c + d) == Skeleton(c) + Skeleton(d)
  {
    if c == [] {
      assert c + d == d;
    } else {
      SkeletonConcat(c[1..], d);
      assert (c + d)[1..] == c[1..] + d;
    }
  }

  lemma SkeletonSplit(code: seq<Insn>, k: nat)
    requires k <= |code|
    ensures Skeleton(code) == Skeleton(code[..k]) + Skeleton(code[k..])
  {
    hide Skeleton;
    assert code == code[..k] + code[k..];
    SkeletonConcat(code[..k], code[k..]);
  }

  /** One instruction more or less in the middle. */
  lemma SkeletonMiddle(a: seq<Insn>, x: Insn, b: seq<Insn>)
    ensures Skeleton(a + [x] + b) ==
            Skeleton(a) + (if x.op == LABEL then [] else [if IsJump(x.op) then Insn(x.op, 0) else x]) + Skeleton(b)
  {
    assert [x][1..] == [] && Skeleton([]) == [];
    SkeletonConcat(a + [x], b);
    SkeletonConcat(a, [x]);
  }

  lemma SkeletonRedirect(code: seq<Insn>, n: nat, l: int)
    requires n < |code| && IsJump(code[n].op)
    ensures Skeleton(Redirect(code, n, l)) == Skeleton(code)
  {
    hide Skeleton;
    SkeletonMiddle(code[..n], code[n], code[n + 1..]);
    SkeletonMiddle(code[..n], Insn(code[n].op, l), code[n + 1..]);
    MiddleOf(code, n, code[n]);
    MiddleOf(code, n, Insn(code[n].op, l));
    assert code[n := code[n]] == code;
  }

  lemma MiddleOf(code: seq<Insn>, n: nat, x: Insn)
    requires n < |code|
    ensures code[n := x] == code[..n] + [x] + code[n + 1..]
  {
  }

  lemma SkeletonInsert(code: seq<Insn>, t: nat, l: int)
    requires t < |code|
    ensures Skeleton(InsertLabel(code, t, l)) == Skeleton(code)
  {
    hide Skeleton;
    SkeletonMiddle(code[..t + 1], Insn(LABEL, l), code[t + 1..]);
    SkeletonSplit(code, t + 1);
    assert Skeleton(code[..t + 1]) + [] == Skeleton(code[..t + 1]);
  }

  lemma {:induction false} ThreadSkeleton(code: seq<Insn>, labels: nat, n: nat)
    requires Threadable(code, labels)
    ensures Skeleton(Thread(code, labels, n).0) == Skeleton(code)
    decreases Real(code, n), LeadingLabels(code, n), Reach(code, n)
  {
    if n < |code| {
      if LandsOnJump(code, n) {
        ThreadOnceThreadable(code, labels, n);
        ThreadOnceDecreases(code, labels, n);
        var t := Target(code, code[n].arg);
        if code[t].op == code[n].op {
          SkeletonRedirect(code, n, code[t].arg);
        } else {
          var ins := InsertLabel(code, t, labels);
          SkeletonInsert(code, t, labels);
          assert ins[n] == code[n];
          SkeletonRedirect(ins, n, labels);
        }
        var (code', labels') := ThreadOnce(code, labels, n);
        ThreadSkeleton(code', labels', n);
      } else {
        ThreadSkeleton(code, labels, n + 1);
      }
    }
  }

  lemma RedirectRounded(code: seq<Insn>, n: nat, l: int, count: nat)
    requires n < |code| && IsJump(code[n].op) && Rounded(code, count)
    ensures Rounded(Redirect(code, n, l), count)
  {
    forall i | 0 <= i < |code| - 1
      ensures StringReady(Redirect(code, n, l), i, 0, count)
    {
      assert StringReady(code, i, 0, count);
    }
  }

  lemma InsertRounded(code: seq<Insn>, t: nat, l: int, count: nat)
    requires t < |code| && IsJump(code[t].op) && Rounded(code, count)
    ensures Rounded(InsertLabel(code, t, l), count)
  {
    var ins := InsertLabel(code, t, l);
    forall i | 0 <= i < |ins| - 1
      ensures StringReady(ins, i, 0, count)
    {
      if i != t + 1 {
        var j := if i <= t then i else i - 1;
        assert StringReady(code, j, 0, count);
      }
    }
  }

  lemma ThreadOnceWellFormed(code: seq<Insn>, labels: nat, n: nat, count: nat)
    requires Threadable(code, labels) && n < |code| && LandsOnJump(code, n)
    requires WellFormed(code, count)
    ensures WellFormed(ThreadOnce(code, labels, n).0, count)
  {
    hide Rounded;
    var t := Target(code, code[n].arg);
    ThreadOnceThreadable(code, labels, n);
    if code[t].op == code[n].op {
      RedirectRounded(code, n, code[t].arg, count);
    } else {
      InsertRounded(code, t, labels, count);
      InsertAt(code, t, labels, n);
      RedirectRounded(InsertLabel(code, t, labels), n, labels, count);
    }
  }

  /** Threading keeps each LOADS right in front of the test that needs it. */
  lemma {:induction false} ThreadWellFormed(code: seq<Insn>, labels: nat, n: nat, count: nat)
    requires Threadable(code, labels) && WellFormed(code, count)
    ensures WellFormed(Thread(code, labels, n).0, count)
    decreases Real(code, n), LeadingLabels(code, n), Reach(code, n)
  {
    if n < |code| {
      if LandsOnJump(code, n) {
        ThreadOnceThreadable(code, labels, n);
        ThreadOnceDecreases(code, labels, n);
        ThreadOnceWellFormed(code, labels, n, count);
        var (code', labels') := ThreadOnce(code, labels, n);
        ThreadWellFormed(code', labels', n, count);
      } else {
        ThreadWellFormed(code, labels, n + 1, count);
      }
    }
  }
}
