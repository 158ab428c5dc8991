/** The decompiler as it runs on bytecode, and why what it prints for a compiled
    lock reads back as the lock. */
module LockUnparse {
  import opened Bytes
  import opened LockTree
  import opened LockAsm
  import opened JumpThreading
  import opened LockBytecode
  import opened LockCompiler
  import opened LockGrammar
  import opened LockDecompile
  import opened LockStored

  // ----- The decompiler, on bytes

  /** The address just past the parenthesis that closes `depth` open ones; past
      the end if there is none. */
  function AfterCloseBytes(bytes: seq<Byte>, pc: int, depth: int): (q: int)
    ensures q >= pc
    decreases |bytes| - pc
  {
    if !InsnAt(bytes, pc) then pc
    else if OpAt(bytes, pc) != PAREN then AfterCloseBytes(bytes, pc + INSN_LEN, depth)
    else
      var depth' := if ArgAt(bytes, pc) != 0 then depth - 1 else depth + 1;
      if depth' == 0 then pc + INSN_LEN else AfterCloseBytes(bytes, pc + INSN_LEN, depth')
  }

  predicate NegatesBytes(bytes: seq<Byte>, pc: int) {
    InsnAt(bytes, pc) && OpAt(bytes, pc) == NEGR
  }

  predicate NegatedBytes(bytes: seq<Byte>, pc: int)
    requires InsnAt(bytes, pc)
  {
    if OpAt(bytes, pc) == PAREN then ArgAt(bytes, pc) == 0 && NegatesBytes(bytes, AfterCloseBytes(bytes, pc + INSN_LEN, 1))
    else NegatesBytes(bytes, pc + INSN_LEN)
  }

  function UnparseBytes(bytes: seq<Byte>, pc: int, s: int): Tokens
    decreases |bytes| - pc
  {
    if !InsnAt(bytes, pc) || OpAt(bytes, pc) == RET then []
    else
      var op, arg := OpAt(bytes, pc), ArgAt(bytes, pc);
      Bang(NegatedBytes(bytes, pc)) + Shown(op, arg, CStringAt(bytes, s), CStringAt(bytes, arg))
      + UnparseBytes(bytes, pc + INSN_LEN, if op == LOADS then arg else s)
  }

  /** The walk from `pc` to the RET stays inside the bytes. */
  predicate Walkable(bytes: seq<Byte>, pc: int)
    decreases |bytes| - pc
  {
    InsnAt(bytes, pc) && (OpAt(bytes, pc) != RET ==>
      && InsnAt(bytes, pc + INSN_LEN)
      && (OpAt(bytes, pc) == PAREN && ArgAt(bytes, pc) == 0 ==> InsnAt(bytes, AfterCloseBytes(bytes, pc + INSN_LEN, 1)))
      && Walkable(bytes, pc + INSN_LEN))
  }

  /** The decompiler's loop. */
  method UnparseBoolexp(bytes: seq<Byte>) returns (out: Tokens)
    requires Walkable(bytes, 0)
    ensures out == UnparseBytes(bytes, 0, -1)
  {
    hide UnparseBytes, Walkable, OpAt, ArgAt;
    out := [];
    var pc, s := 0, -1;
    WalkableMeans(bytes, pc);
    while OpAt(bytes, pc) != RET
      invariant Walkable(bytes, pc) && InsnAt(bytes, pc)
      invariant out + UnparseBytes(bytes, pc, s) == UnparseBytes(bytes, 0, -1)
      decreases |bytes| - pc
    {
      UnparseStep(bytes, pc, s);
      WalkableMeans(bytes, pc);
      var shown := ShowInsn(bytes, pc, s);
      WalkableMeans(bytes, pc + INSN_LEN);
      var s' := if OpAt(bytes, pc) == LOADS then ArgAt(bytes, pc) else s;
      assert out + (shown + UnparseBytes(bytes, pc + INSN_LEN, s')) == (out + shown) + UnparseBytes(bytes, pc + INSN_LEN, s');
      out, pc, s := out + shown, pc + INSN_LEN, s';
    }
    UnparseStep(bytes, pc, s);
    assert out + [] == out;
  }

  lemma WalkableMeans(bytes: seq<Byte>, pc: int)
    requires Walkable(bytes, pc)
    ensures InsnAt(bytes, pc) && (OpAt(bytes, pc) != RET ==> Walkable(bytes, pc + INSN_LEN))
  {
  }

  /** What decompiling does at one instruction. */
  lemma UnparseStep(bytes: seq<Byte>, pc: int, s: int)
    requires InsnAt(bytes, pc)
    ensures var op, arg := OpAt(bytes, pc), ArgAt(bytes, pc);
            UnparseBytes(bytes, pc, s) ==
              if op == RET then [] else
                (Bang(NegatedBytes(bytes, pc)) + Shown(op, arg, CStringAt(bytes, s), CStringAt(bytes, arg)))
                + UnparseBytes(bytes, pc + INSN_LEN, if op == LOADS then arg else s)
  {
    hide Shown, NegatedBytes, CStringAt, OpAt, ArgAt;
  }

  /** What one instruction prints, with the `!` that belongs in front of it. */
  method ShowInsn(bytes: seq<Byte>, pc: int, s: int) returns (out: Tokens)
    requires Walkable(bytes, pc) && OpAt(bytes, pc) != RET
    ensures out == Bang(NegatedBytes(bytes, pc)) + Shown(OpAt(bytes, pc), ArgAt(bytes, pc), CStringAt(bytes, s), CStringAt(bytes, ArgAt(bytes, pc)))
  {
    hide OpAt, ArgAt, CStringAt, AfterCloseBytes;
    var op, arg := OpAt(bytes, pc), ArgAt(bytes, pc);
    out := [];
    if op != PAREN {
      if OpAt(bytes, pc + INSN_LEN) == NEGR { out := out + [TkNot]; }
      out := out + Shown(op, arg, CStringAt(bytes, s), CStringAt(bytes, arg));
    } else if arg == 0 {
      var q := FindClose(bytes, pc + INSN_LEN);
      if OpAt(bytes, q) == NEGR { out := [TkNot, TkOpen]; } else { out := [TkOpen]; }
    } else if arg == 1 {
      out := [TkClose];
    }
  }

  /** The inner loop that looks for the `)` that matches a `(`. */
  method FindClose(bytes: seq<Byte>, start: int) returns (tpc: int)
    requires InsnAt(bytes, AfterCloseBytes(bytes, start, 1)) && start >= 0
    ensures tpc == AfterCloseBytes(bytes, start, 1)
  {
    var pstack := 1;
    tpc := start;
    while true
      invariant tpc >= 0 && AfterCloseBytes(bytes, tpc, pstack) == AfterCloseBytes(bytes, start, 1)
      decreases |bytes| - tpc
    {
      if OpAt(bytes, tpc) == PAREN {
        if ArgAt(bytes, tpc) != 0 { pstack := pstack - 1; } else { pstack := pstack + 1; }
        if pstack == 0 { tpc := tpc + INSN_LEN; return; }
      }
      tpc := tpc + INSN_LEN;
    }
  }

  // ----- On the bytes of a compiled lock

  lemma {:induction false} AfterCloseAgrees(n: Node, i: nat, depth: int)
    requires Compilable(n) && i <= |Stored(n)|
    ensures AfterClose(Stored(n), i, depth) < |Stored(n)| ==>
              AfterCloseBytes(Compile(n), i * INSN_LEN, depth) == AfterClose(Stored(n), i, depth) * INSN_LEN
    decreases |Stored(n)| - i
  {
    hide Stored, Compile, CStringAt, StringNo, OpAt, ArgAt, AfterClose, AfterCloseBytes, HasString;
    AfterCloseUnfold(Stored(n), i, depth);
    if i < |Stored(n)| {
      StoredIs(n, i);
      var insn := Stored(n)[i];
      StoredParen(Compile(n), Assemble(n).strs, insn, i * INSN_LEN, depth);
      AfterCloseAgrees(n, i + 1, if insn.op != PAREN then depth else if insn.arg != 0 then depth - 1 else depth + 1);
    }
  }

  lemma AfterCloseUnfold(code: seq<Insn>, i: nat, depth: int)
    ensures AfterClose(code, i, depth) ==
            if i >= |code| then i
            else if code[i].op != PAREN then AfterClose(code, i + 1, depth)
            else if code[i].arg != 0 then (if depth == 1 then i + 1 else AfterClose(code, i + 1, depth - 1))
            else if depth == -1 then i + 1 else AfterClose(code, i + 1, depth + 1)
  {
  }

  lemma StoredParen(bytes: seq<Byte>, strs: seq<Text>, insn: Insn, pc: int, depth: int)
    requires StoredAt(bytes, strs, insn, pc)
    ensures AfterCloseBytes(bytes, pc, depth) ==
            if insn.op != PAREN then AfterCloseBytes(bytes, pc + INSN_LEN, depth)
            else if insn.arg != 0 then (if depth == 1 then pc + INSN_LEN else AfterCloseBytes(bytes, pc + INSN_LEN, depth - 1))
            else if depth == -1 then pc + INSN_LEN else AfterCloseBytes(bytes, pc + INSN_LEN, depth + 1)
  {
    hide CStringAt, StringNo, OpAt, ArgAt;
  }

  lemma {:induction false} UnparseAgrees(n: Node, i: nat, sr: int, s: int)
    requires Compilable(n) && i < |Stored(n)|
    requires CStringAt(Compile(n), s) == StringNo(Assemble(n).strs, sr)
    requires ParensMatched(Stored(n), i, |Stored(n)|)
    ensures UnparseBytes(Compile(n), i * INSN_LEN, s) == Unparse(Stored(n), Assemble(n).strs, i, sr)
    decreases |Stored(n)| - i
  {
    hide Stored, Compile, Shown, CStringAt, NegatedBytes, Negated, OpAt, ArgAt, UnparseBytes, ParensMatched,
         Unparse, StringNo, Bang, InsnAt;
    StoredHere(n, i);
    UnparseUnfold(Stored(n), Assemble(n).strs, i, sr);
    UnparseStep(Compile(n), i * INSN_LEN, s);
    if Stored(n)[i].op != RET {
      HeadAgrees(n, i, StringNo(Assemble(n).strs, sr));
      var loads, arg := Stored(n)[i].op == LOADS, ArgAt(Compile(n), i * INSN_LEN);
      UnparseAgrees(n, i + 1, if loads then Stored(n)[i].arg else sr, if loads then arg else s);
    }
  }

  lemma StoredHere(n: Node, i: nat)
    requires Compilable(n) && i < |Stored(n)|
    ensures var bytes, insn, pc := Compile(n), Stored(n)[i], i * INSN_LEN;
            && InsnAt(bytes, pc) && OpAt(bytes, pc) == insn.op && (insn.op != RET ==> i + 1 < |Stored(n)|)
            && (insn.op == LOADS ==> CStringAt(bytes, ArgAt(bytes, pc)) == StringNo(Assemble(n).strs, insn.arg))
  {
    hide Stored, Compile, CStringAt, StringNo, OpAt, ArgAt;
    StoredIs(n, i);
    StoredEnds(n);
  }

  /** The tokens of one instruction. */
  lemma HeadAgrees(n: Node, i: nat, name: Text)
    requires Compilable(n) && i + 1 < |Stored(n)| && ParensMatched(Stored(n), i, |Stored(n)|)
    requires InsnAt(Compile(n), i * INSN_LEN)
    ensures var bytes, pc, insn := Compile(n), i * INSN_LEN, Stored(n)[i];
            Bang(NegatedBytes(bytes, pc)) + Shown(OpAt(bytes, pc), ArgAt(bytes, pc), name, CStringAt(bytes, ArgAt(bytes, pc))) ==
            Bang(Negated(Stored(n), i)) + Shown(insn.op, insn.arg, name, StringNo(Assemble(n).strs, insn.arg))
    ensures ParensMatched(Stored(n), i + 1, |Stored(n)|)
  {
    hide Stored, Compile, Shown, CStringAt, NegatedBytes, Negated, OpAt, ArgAt, ParensMatched, StringNo, Bang;
    StoredIs(n, i);
    NegatedAgrees(n, i);
    ShownAgrees(Compile(n), Assemble(n).strs, Stored(n)[i], i * INSN_LEN, name);
    MatchedLater(Stored(n), i);
  }

  lemma {:induction false} WalkableAgrees(n: Node, i: nat)
    requires Compilable(n) && i < |Stored(n)| && ParensMatched(Stored(n), i, |Stored(n)|)
    ensures Walkable(Compile(n), i * INSN_LEN)
    decreases |Stored(n)| - i
  {
    hide Stored, Compile, CStringAt, AfterCloseBytes, NegatedBytes, Negated, OpAt, ArgAt, ParensMatched, StringNo;
    StoredIs(n, i);
    StoredEnds(n);
    if Stored(n)[i].op != RET {
      StoredIs(n, i + 1);
      MatchedLater(Stored(n), i);
      WalkableAgrees(n, i + 1);
      NegatedAgrees(n, i);
    }
  }

  lemma UnparseUnfold(code: seq<Insn>, strs: seq<Text>, i: nat, sr: int)
    requires i < |code|
    ensures Unparse(code, strs, i, sr) ==
            if code[i].op == RET then [] else
              (Bang(Negated(code, i)) + Shown(code[i].op, code[i].arg, StringNo(strs, sr), StringNo(strs, code[i].arg)))
              + Unparse(code, strs, i + 1, if code[i].op == LOADS then code[i].arg else sr)
  {
    hide Shown, Negated, StringNo;
  }

  lemma MatchedLater(code: seq<Insn>, i: nat)
    requires ParensMatched(code, i, |code|)
    ensures ParensMatched(code, i + 1, |code|)
  {
  }

  lemma NegatedAgrees(n: Node, i: nat)
    requires Compilable(n) && i + 1 < |Stored(n)| && ParensMatched(Stored(n), i, |Stored(n)|)
    requires InsnAt(Compile(n), i * INSN_LEN)
    ensures NegatedBytes(Compile(n), i * INSN_LEN) == Negated(Stored(n), i)
    ensures Stored(n)[i] == Insn(PAREN, 0) ==> InsnAt(Compile(n), AfterCloseBytes(Compile(n), (i + 1) * INSN_LEN, 1))
  {
    hide Stored, Compile, AfterClose, AfterCloseBytes, CStringAt, OpAt, ArgAt;
    StoredIs(n, i);
    StoredIs(n, i + 1);
    if Stored(n)[i] == Insn(PAREN, 0) {
      AfterCloseAgrees(n, i + 1, 1);
      StoredIs(n, AfterClose(Stored(n), i + 1, 1));
    }
  }

  lemma ShownAgrees(bytes: seq<Byte>, strs: seq<Text>, insn: Insn, pc: int, name: Text)
    requires StoredAt(bytes, strs, insn, pc)
    ensures Shown(OpAt(bytes, pc), ArgAt(bytes, pc), name, CStringAt(bytes, ArgAt(bytes, pc))) ==
            Shown(insn.op, insn.arg, name, StringNo(strs, insn.arg))
  {
  }

  /** What the decompiler prints for a compiled lock. */
  lemma DecompilePrints(n: Node)
    requires Compilable(n)
    ensures UnparseBytes(Compile(n), 0, -1) == Print(Server, Optimize(n), Alone)
    ensures Walkable(Compile(n), 0)
  {
    var a, m, code, strs := Asm([], [], 0), Optimize(n), Stored(n), Assemble(n).strs;
    StoredShape(n);
    StoredEnds(n);
    OptimizeSettlesNots(n);
    var j := |Bare(Gen(a, m, Alone))|;
    GenParensMatched(a, m, Alone, code);
    assert code[j].op == RET;
    UnparseAgrees(n, 0, -1, -1);
    WalkableAgrees(n, 0);
    UnparseRounded(m, code, strs);
    SettledNoDouble(m);
    DecompiledIsPrint(m, Alone);
  }

  /** Decompiling a compiled lock and parsing the text gives the rewritten tree
      with its chains of & and | nested to the right, using up all the text. */
  lemma DecompileParses(n: Node)
    requires Compilable(n)
    ensures ParseE(UnparseBytes(Compile(n), 0, -1)) == Ok(Nest(Server, Optimize(n)), [])
  {
    DecompilePrints(n);
    PrintParses(Server, Optimize(n));
  }

  /** So the lock read back means what the lock that was first parsed meant. */
  lemma DecompileMeaning<S>(w: World<S>, n: Node, s: S)
    requires Compilable(n)
    ensures var p := ParseE(UnparseBytes(Compile(n), 0, -1));
            p.Ok? && EvalNode(w, p.n, false, s) == EvalNode(w, n, false, s)
  {
    DecompileParses(n);
    NestMeaning(Server, w, Optimize(n), false, s);
    OptimizePreservesMeaning(w, n, false, s);
  }

  /** The code of any tree, up to the RET. */
  lemma UnparseRounded(n: Node, code: seq<Insn>, strs: seq<Text>)
    requires var g := Gen(Asm([], [], 0), n, Alone); code == Bare(g) + [Insn(RET, 0)] && g.strs == strs
    ensures Unparse(code, strs, 0, -1) == Decompiled(n, Alone)
  {
    var a := Asm([], [], 0);
    var j := |Bare(Gen(a, n, Alone))|;
    assert code[j].op == RET && Bare(a) == [];
    var sr' := UnparseGen(a, n, Alone, code, strs, -1);
    assert Unparse(code, strs, j, sr') == [];
    Unmarked(n, Alone);
  }

  /** The rewriting is what makes this work: code generated for a tree as it
      stands decompiles to that tree exactly when no NOT is right over a NOT. */
  lemma DoubleNotMisprints(n: Node)
    ensures Unparse(Skeleton(Generate(n).insns), Generate(n).strs, 0, -1) == Print(Server, n, Alone) <==> NoDoubleNots(n)
  {
    BareAppend(Gen(Asm([], [], 0), n, Alone), RET, 0);
    UnparseRounded(n, Skeleton(Generate(n).insns), Generate(n).strs);
    DecompiledIsPrint(n, Alone);
  }
}
