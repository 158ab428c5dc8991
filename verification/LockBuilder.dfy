/** The compiler as it runs: parse-tree nodes rewritten in place, an assembler
    that its routines add to and rewrite, and the emission loops. */
module LockBuilder {
  import opened Bytes
  import opened LockTree
  import opened LockAsm
  import opened JumpThreading
  import opened LockBytecode
  import opened LockCompiler

  datatype NodeType =
    | BOOLEXP_AND | BOOLEXP_OR | BOOLEXP_NOT | BOOLEXP_CONST | BOOLEXP_ATR | BOOLEXP_IND
    | BOOLEXP_CARRY | BOOLEXP_IS | BOOLEXP_OWNER | BOOLEXP_EVAL | BOOLEXP_FLAG | BOOLEXP_BOOL

  /** The union of a node's possible data. */
  datatype NodeData =
    | NoData
    | Sub(a: BoolexpNode, b: BoolexpNode)
    | Neg(n: BoolexpNode)
    | AtrLock(name: Text, text: Text)
    | FlagLock(key: FlagKey, value: Text)
    | IndLock(lock: Text)

  /** A parse-tree node. */
  class BoolexpNode {
    var kind: NodeType
    var thing: int
    var data: NodeData

    ghost var tree: Node
    ghost var repr: set<BoolexpNode>

    /** The node and those below it form the tree `tree`, sharing nothing. */
    ghost predicate Valid()
      reads this, repr
      decreases repr
      ensures Valid() ==> this in repr
    {
      && this in repr
      && match tree
         case And(x, y) => kind == BOOLEXP_AND && data.Sub? && Pair(x, y)
         case Or(x, y) => kind == BOOLEXP_OR && data.Sub? && Pair(x, y)
         case Not(x) =>
           && kind == BOOLEXP_NOT && data.Neg?
           && data.n in repr && data.n.repr <= repr - {this} && data.n.Valid() && data.n.tree == x
         case Const(x) => kind == BOOLEXP_CONST && thing == x
         case Carry(x) => kind == BOOLEXP_CARRY && thing == x
         case Is(x) => kind == BOOLEXP_IS && thing == x
         case Owner(x) => kind == BOOLEXP_OWNER && thing == x
         case Bool(v) => kind == BOOLEXP_BOOL && thing == if v then 1 else 0
         case Ind(x, lock) => kind == BOOLEXP_IND && thing == x && data == IndLock(lock)
         case Atr(name, text) => kind == BOOLEXP_ATR && data == AtrLock(name, text)
         case Eval(name, text) => kind == BOOLEXP_EVAL && data == AtrLock(name, text)
         case Flag(key, text) => kind == BOOLEXP_FLAG && data == FlagLock(key, text)
    }

    ghost predicate Pair(x: Node, y: Node)
      requires data.Sub? && this in repr
      reads this, repr
      decreases repr, 0
    {
      && data.a in repr && data.a.repr <= repr - {this} && data.a.Valid() && data.a.tree == x
      && data.b in repr && data.b.repr <= repr - {this} && data.b.Valid() && data.b.tree == y
      && data.a.repr !! data.b.repr
    }

    /** The two parts of an AND or OR. */
    lemma PairParts()
      requires Valid() && (tree.And? || tree.Or?)
      ensures data.Sub? && data.a in repr && data.b in repr && this in repr && this !in data.a.repr && this !in data.b.repr
      ensures data.a.repr <= repr && data.b.repr <= repr && data.a.Valid() && data.b.Valid()
      ensures data.a.tree == tree.a && data.b.tree == tree.b
    {
    }

    /** The type tag says which constructor the tree has. */
    lemma Kinds()
      requires Valid()
      ensures kind == BOOLEXP_AND <==> tree.And?
      ensures kind == BOOLEXP_OR <==> tree.Or?
      ensures kind == BOOLEXP_NOT <==> tree.Not?
      ensures kind == BOOLEXP_BOOL <==> tree.Bool?
      ensures kind == BOOLEXP_IS <==> tree.Is?
      ensures kind == BOOLEXP_CARRY <==> tree.Carry?
      ensures tree.Is? || tree.Carry? ==> thing == tree.thing
    {
    }
  }

  /** Rewrite the tree below `ast` in place.  Nodes that the rewriting drops
      leave `ast.repr`. */
  method OptimizeBvmAst(ast: BoolexpNode)
    requires ast.Valid()
    modifies ast.repr
    ensures ast.Valid() && ast.repr <= old(ast.repr)
    ensures ast.tree == Optimize(old(ast.tree))
    decreases ast.tree
  {
    ast.Kinds();
    match ast.kind {
      case BOOLEXP_OR =>
        ast.data.a.Kinds();
        ast.data.b.Kinds();
        var a, b := ast.data.a, ast.data.b;
        if ((a.kind == BOOLEXP_IS && b.kind == BOOLEXP_CARRY) || (a.kind == BOOLEXP_CARRY && b.kind == BOOLEXP_IS)) && a.thing == b.thing {
          ast.kind, ast.thing, ast.data := BOOLEXP_CONST, a.thing, NoData;
          ast.tree := Const(a.thing);
        } else {
          OptimizeSub(ast);
        }
      case BOOLEXP_AND => OptimizeSub(ast);
      case BOOLEXP_NOT => OptimizeNot(ast);
      case _ =>
    }
  }

  /** Both parts of an AND or OR that stays one. */
  method OptimizeSub(ast: BoolexpNode)
    requires ast.Valid() && (ast.tree.And? || ast.tree.Or?)
    modifies ast.repr
    ensures ast.Valid() && ast.repr <= old(ast.repr)
    ensures old(ast.tree).And? ==> ast.tree == And(Optimize(old(ast.tree).a), Optimize(old(ast.tree).b))
    ensures old(ast.tree).Or? ==> ast.tree == Or(Optimize(old(ast.tree).a), Optimize(old(ast.tree).b))
    decreases ast.tree, 0
  {
    var a, b := ast.data.a, ast.data.b;
    OptimizeBvmAst(a);
    OptimizeBvmAst(b);
    ast.tree := if ast.kind == BOOLEXP_AND then And(a.tree, b.tree) else Or(a.tree, b.tree);
  }

  method OptimizeNot(ast: BoolexpNode)
    requires ast.Valid() && ast.tree.Not?
    modifies ast.repr
    ensures ast.Valid() && ast.repr <= old(ast.repr)
    ensures ast.tree == Optimize(old(ast.tree))
    decreases ast.tree, 0
  {
    var temp := ast.data.n;
    temp.Kinds();
    if temp.kind == BOOLEXP_NOT {
      var n := temp.data.n;
      ast.kind, ast.thing, ast.data := n.kind, n.thing, n.data;
      ast.tree, ast.repr := n.tree, n.repr - {n} + {ast};
      assert n.Valid();
      if n.tree.And? || n.tree.Or? {
        assert n.Pair(n.tree.a, n.tree.b);
        assert ast.Pair(n.tree.a, n.tree.b);
      }
      assert ast.Valid();
      OptimizeBvmAst(ast);
    } else if temp.kind == BOOLEXP_BOOL {
      ast.kind, ast.thing, ast.data := BOOLEXP_BOOL, if temp.thing == 0 then 1 else 0, NoData;
      ast.tree := Bool(!temp.tree.value);
    } else {
      OptimizeBvmAst(temp);
      ast.tree := Not(temp.tree);
    }
  }

  // ----- The assembler's lists

  /** An instruction in the list. */
  class AsmNode {
    var op: Op
    var arg: int
    var next: AsmNode?

    constructor (op: Op, arg: int)
      ensures this.op == op && this.arg == arg && next == null
    {
      this.op, this.arg, next := op, arg, null;
    }
  }

  /** A string in the list, with its length as it is stored. */
  class StrNode {
    var s: Text
    var len: nat
    var next: StrNode?

    constructor (s: Text)
      ensures this.s == s && len == |s| + 1 && next == null
    {
      this.s, len, next := s, |s| + 1, null;
    }
  }

  /** The place of node `i` in a list of instructions, which is null past its end. */
  ghost function AsmAt(nodes: seq<AsmNode>, i: int): AsmNode? {
    if 0 <= i < |nodes| then nodes[i] else null
  }

  ghost function StrAt(nodes: seq<StrNode>, i: int): StrNode? {
    if 0 <= i < |nodes| then nodes[i] else null
  }

  /** The list from `head` to `tail` consists of these nodes, all different. */
  ghost predicate AsmList(nodes: seq<AsmNode>, head: AsmNode?, tail: AsmNode?)
    reads nodes`next
  {
    && head == AsmAt(nodes, 0) && tail == AsmAt(nodes, |nodes| - 1)
    && (forall i :: 0 <= i < |nodes| ==> nodes[i].next == AsmAt(nodes, i + 1))
    && (forall i, j :: 0 <= i < j < |nodes| ==> nodes[i] != nodes[j])
  }

  ghost predicate StrList(nodes: seq<StrNode>, head: StrNode?, tail: StrNode?)
    reads nodes`next
  {
    && head == StrAt(nodes, 0) && tail == StrAt(nodes, |nodes| - 1)
    && (forall i :: 0 <= i < |nodes| ==> nodes[i].next == StrAt(nodes, i + 1))
    && (forall i, j :: 0 <= i < j < |nodes| ==> nodes[i] != nodes[j])
  }

  /** A node behind a list whose last node points to it. */
  lemma AsmSnoc(nodes: seq<AsmNode>, n: AsmNode)
    requires n !in nodes && n.next == null
    requires forall i :: 0 <= i < |nodes| ==> nodes[i].next == if i == |nodes| - 1 then n else AsmAt(nodes, i + 1)
    requires forall i, j :: 0 <= i < j < |nodes| ==> nodes[i] != nodes[j]
    ensures AsmList(nodes + [n], if nodes == [] then n else nodes[0], n)
  {
    var ms := nodes + [n];
    assert forall i :: 0 <= i < |nodes| ==> ms[i] == nodes[i];
    forall i | 0 <= i < |ms| ensures ms[i].next == AsmAt(ms, i + 1) {
      if i < |nodes| { assert nodes[i].next == ms[i + 1]; }
    }
  }

  lemma StrSnoc(nodes: seq<StrNode>, n: StrNode)
    requires n !in nodes && n.next == null
    requires forall i :: 0 <= i < |nodes| ==> nodes[i].next == (if i == |nodes| - 1 then n else StrAt(nodes, i + 1))
    requires forall i, j :: 0 <= i < j < |nodes| ==> nodes[i] != nodes[j]
    ensures StrList(nodes + [n], if nodes == [] then n else nodes[0], n)
  {
    var ms := nodes + [n];
    assert forall i :: 0 <= i < |nodes| ==> ms[i] == nodes[i];
    forall i | 0 <= i < |ms| ensures ms[i].next == StrAt(ms, i + 1) {
      if i < |nodes| { assert nodes[i].next == ms[i + 1]; }
    }
  }

  /** `u` is `s` with `x` put in behind place `t`. */
  ghost predicate Inserted<T>(s: seq<T>, u: seq<T>, t: nat, x: T) {
    && |u| == |s| + 1 && t < |s|
    && forall i :: 0 <= i < |u| ==> u[i] == if i == t + 1 then x else s[Back(t, i)]
  }

  /** Where the element that is at `i` now was before. */
  function Back(t: nat, i: nat): nat {
    if i <= t then i else i - 1
  }

  lemma InsertedIs<T>(s: seq<T>, t: nat, x: T)
    requires t < |s|
    ensures Inserted(s, s[..t + 1] + [x] + s[t + 1..], t, x)
  {
  }

  lemma InsertedSame<T>(s: seq<T>, u: seq<T>, v: seq<T>, t: nat, x: T)
    requires Inserted(s, u, t, x) && Inserted(s, v, t, x)
    ensures u == v
  {
  }

  lemma InsertedKeeps<T>(s: seq<T>, u: seq<T>, t: nat, x: T)
    requires Inserted(s, u, t, x)
    ensures |u| == |s| + 1 && (forall k :: 0 <= k <= t ==> u[k] == s[k]) && (t < |s| - 1 ==> u[|u| - 1] == s[|s| - 1])
    ensures forall y :: y in u ==> y == x || y in s
  {
  }

  lemma InsertedDistinct<T>(s: seq<T>, u: seq<T>, t: nat, x: T)
    requires Inserted(s, u, t, x) && x !in s && forall i, j :: 0 <= i < j < |s| ==> s[i] != s[j]
    ensures forall i, j :: 0 <= i < j < |u| ==> u[i] != u[j]
  {
  }

  lemma InsertedEnds<T>(s: seq<T>, u: seq<T>, t: nat, x: T)
    requires Inserted(s, u, t, x)
    ensures |u| > 0 && u[0] == s[0] && u[|u| - 1] == if t == |s| - 1 then x else s[|s| - 1]
  {
  }

  lemma AsmListIs(nodes: seq<AsmNode>, head: AsmNode?, tail: AsmNode?)
    requires AsmList(nodes, head, tail)
    ensures head == AsmAt(nodes, 0) && tail == AsmAt(nodes, |nodes| - 1)
    ensures forall i :: 0 <= i < |nodes| ==> nodes[i].next == AsmAt(nodes, i + 1)
    ensures forall i, j :: 0 <= i < j < |nodes| ==> nodes[i] != nodes[j]
  {
  }

  /** A node put into a list behind node `t`. */
  lemma AsmInserted(nodes: seq<AsmNode>, ms: seq<AsmNode>, head: AsmNode?, t: nat, n: AsmNode)
    requires Inserted(nodes, ms, t, n) && n !in nodes && head == AsmAt(nodes, 0) && n.next == AsmAt(nodes, t + 1)
    requires forall i :: 0 <= i < |nodes| ==> nodes[i].next == if i == t then n else AsmAt(nodes, i + 1)
    requires forall i, j :: 0 <= i < j < |nodes| ==> nodes[i] != nodes[j]
    ensures AsmList(ms, head, if t == |nodes| - 1 then n else nodes[|nodes| - 1])
  {
    InsertedDistinct(nodes, ms, t, n);
    InsertedEnds(nodes, ms, t, n);
    forall i: nat | i < |ms| ensures ms[i].next == AsmAt(ms, i + 1) { NextInserted(nodes, ms, t, n, i); }
    hide Inserted;
  }

  lemma NextInserted(nodes: seq<AsmNode>, ms: seq<AsmNode>, t: nat, n: AsmNode, i: nat)
    requires Inserted(nodes, ms, t, n) && i < |ms| && n.next == AsmAt(nodes, t + 1)
    requires i != t + 1 ==> nodes[Back(t, i)].next == if i == t then n else AsmAt(nodes, Back(t, i) + 1)
    ensures ms[i].next == AsmAt(ms, i + 1)
  {
    if i + 1 < |ms| { assert ms[i + 1] == if i + 1 == t + 1 then n else nodes[Back(t, i + 1)]; }
  }

  lemma CodeInserted(nodes: seq<AsmNode>, ms: seq<AsmNode>, t: nat, n: AsmNode)
    requires Inserted(nodes, ms, t, n)
    ensures Inserted(Code(nodes), Code(ms), t, Insn(n.op, n.arg))
  {
    hide Code;
  }

  lemma LabelInserted(nodes: seq<AsmNode>, ms: seq<AsmNode>, t: nat, n: AsmNode)
    requires t < |nodes| && Inserted(nodes, ms, t, n) && n.op == LABEL
    ensures Code(ms) == InsertLabel(Code(nodes), t, n.arg)
  {
    hide Code, Inserted;
    CodeInserted(nodes, ms, t, n);
    InsertedIs(Code(nodes), t, Insn(LABEL, n.arg));
    InsertedSame(Code(nodes), Code(ms), InsertLabel(Code(nodes), t, n.arg), t, Insn(LABEL, n.arg));
  }

  ghost function Code(nodes: seq<AsmNode>): (code: seq<Insn>)
    reads nodes`op, nodes`arg
    ensures |code| == |nodes| && forall i :: 0 <= i < |nodes| ==> code[i] == Insn(nodes[i].op, nodes[i].arg)
  {
    if nodes == [] then [] else [Insn(nodes[0].op, nodes[0].arg)] + Code(nodes[1..])
  }

  ghost predicate LengthsKept(nodes: seq<StrNode>)
    reads nodes`len, nodes`s
  {
    forall n :: n in nodes ==> n.len == |n.s| + 1
  }

  lemma TextsSnoc(nodes: seq<StrNode>, n: StrNode)
    ensures Texts(nodes + [n]) == Texts(nodes) + [n.s]
  {
    hide Texts;
    assert Texts(nodes + [n]) == Texts(nodes) + [n.s];
  }

  lemma LengthsSnoc(nodes: seq<StrNode>, n: StrNode)
    requires LengthsKept(nodes) && n.len == |n.s| + 1
    ensures LengthsKept(nodes + [n])
  {
  }

  ghost function Texts(nodes: seq<StrNode>): (strs: seq<Text>)
    reads nodes`s
    ensures |strs| == |nodes| && forall i :: 0 <= i < |nodes| ==> strs[i] == nodes[i].s
  {
    if nodes == [] then [] else [nodes[0].s] + Texts(nodes[1..])
  }

  /** The assembler: a list of the instructions so far, a list of the strings
      they use, and the next label. */
  class BvmAsm {
    var head: AsmNode?
    var tail: AsmNode?
    var shead: StrNode?
    var stail: StrNode?
    var labelId: nat
    var strcount: nat

    ghost var nodes: seq<AsmNode>
    ghost var snodes: seq<StrNode>
    ghost var repr: set<object>

    ghost predicate Valid()
      reads this, nodes, snodes
      ensures Valid() ==> this in repr && forall n :: n in nodes ==> n in repr
    {
      && this in repr && (forall n :: n in nodes ==> n in repr) && (forall n :: n in snodes ==> n in repr)
      && AsmList(nodes, head, tail) && StrList(snodes, shead, stail) && LengthsKept(snodes) && strcount == |snodes|
    }

    ghost function Value(): Asm
      reads this, nodes, snodes
    {
      Asm(Code(nodes), Texts(snodes), labelId)
    }

    constructor ()
      ensures Valid() && fresh(repr) && Value() == Asm([], [], 0)
    {
      head, tail, shead, stail, labelId, strcount := null, null, null, null, 0, 0;
      nodes, snodes, repr := [], [], {this};
    }

    method GenLabelId() returns (l: nat)
      requires Valid()
      modifies this`labelId
      ensures Valid() && l == old(labelId) == old(Value()).labels && Value() == old(Value()).(labels := l + 1)
    {
      hide Code, Texts, AsmList, StrList, LengthsKept;
      l := labelId;
      labelId := labelId + 1;
    }

    method AppendInsn(op: Op, arg: int)
      requires Valid()
      modifies repr
      ensures Valid() && fresh(repr - old(repr)) && Value() == Append(old(Value()), op, arg)
    {
      hide Code, Texts, AsmList, StrList;
      ghost var code := Code(nodes);
      var newop := new AsmNode(op, arg);
      LinkInsn(newop);
      repr := repr + {newop};
      assert Code(nodes) == code + [Insn(op, arg)];
    }

    /** Put a new node at the end of the list of instructions. */
    method LinkInsn(newop: AsmNode)
      requires AsmList(nodes, head, tail) && newop !in nodes && newop.next == null
      modifies this`head, this`tail, this`nodes, nodes`next
      ensures AsmList(nodes, head, tail) && nodes == old(nodes) + [newop]
    {
      if head == null {
        head, tail := newop, newop;
      } else {
        tail.next := newop;
        tail := newop;
      }
      AsmSnoc(nodes, newop);
      hide AsmList;
      nodes := nodes + [newop];
    }

    lemma TextsLinked()
      requires Valid()
      ensures shead == StrAt(snodes, 0) && strcount == |snodes| && Value().strs == Texts(snodes)
      ensures forall i :: 0 <= i < |snodes| ==> snodes[i].next == StrAt(snodes, i + 1)
    {
      hide AsmList, LengthsKept;
    }

    /** Look for the string among those stored, and store it if it is new. */
    method AppendInsnString(op: Op, s: Text)
      requires Valid()
      modifies repr
      ensures Valid() && fresh(repr - old(repr)) && Value() == AppendString(old(Value()), op, s)
    {
      hide Code, Texts, BvmAsm.Valid, Value;
      TextsLinked();
      var newstr, count, found := shead, 0, false;
      while newstr != null
        invariant 0 <= count <= |snodes| && newstr == StrAt(snodes, count)
        invariant forall k :: 0 <= k < count ==> snodes[k].s != s
        decreases |snodes| - count
      {
        if newstr.s == s {
          found := true;
          break;
        }
        newstr, count := newstr.next, count + 1;
      }
      FindStringIs(Texts(snodes), s, count);
      if !found {
        count := strcount;
        AppendText(s);
      }
      AppendInsn(op, count);
    }

    method AppendText(s: Text)
      requires Valid()
      modifies repr
      ensures Valid() && fresh(repr - old(repr))
      ensures Value() == old(Value()).(strs := old(Texts(snodes)) + [s])
    {
      hide Code, Texts, AsmList, StrList, LengthsKept;
      var newstr := new StrNode(s);
      LengthsSnoc(snodes, newstr);
      TextsSnoc(snodes, newstr);
      LinkText(newstr);
      strcount := strcount + 1;
      repr := repr + {newstr};
    }

    /** Put a new node at the end of the list of strings. */
    method LinkText(newstr: StrNode)
      requires StrList(snodes, shead, stail) && newstr !in snodes && newstr.next == null
      modifies this`shead, this`stail, this`snodes, snodes`next
      ensures StrList(snodes, shead, stail) && snodes == old(snodes) + [newstr]
    {
      if shead == null {
        shead, stail := newstr, newstr;
      } else {
        stail.next := newstr;
        stail := newstr;
      }
      StrSnoc(snodes, newstr);
      hide StrList;
      snodes := snodes + [newstr];
    }

    method GenerateBvmAsm1(b: BoolexpNode, outer: Outer)
      requires Valid() && b.Valid() && repr !! b.repr
      modifies repr
      ensures Valid() && fresh(repr - old(repr)) && Value() == Gen(old(Value()), b.tree, outer)
      decreases b.tree, 1
    {
      hide Gen, GenPair, GenAtom, BvmAsm.Valid, Value;
      GenIs(Value(), b.tree, outer);
      b.Kinds();
      match b.kind {
        case BOOLEXP_AND => GenerateAnd(b, outer);
        case BOOLEXP_OR => GenerateOr(b, outer);
        case BOOLEXP_NOT =>
          GenerateBvmAsm1(b.data.n, UnderNot);
          AppendInsn(NEGR, 0);
        case _ => GenerateTest(b);
      }
    }

    method GenerateAnd(b: BoolexpNode, outer: Outer)
      requires Valid() && b.Valid() && repr !! b.repr && b.tree.And?
      modifies repr
      ensures Valid() && fresh(repr - old(repr)) && Value() == GenPair(old(Value()), b.tree, outer)
      decreases b.tree, 0
    {
      hide Gen, Append, BvmAsm.Valid, Value, BoolexpNode.Valid;
      b.PairParts();
      var lbl := GenLabelId();
      if outer == UnderNot { AppendInsn(PAREN, 0); }
      GenerateBvmAsm1(b.data.a, UnderAnd);
      AppendInsn(JMPF, lbl);
      GenerateBvmAsm1(b.data.b, UnderAnd);
      if outer == UnderNot { AppendInsn(PAREN, 1); }
      AppendInsn(LABEL, lbl);
    }

    method GenerateOr(b: BoolexpNode, outer: Outer)
      requires Valid() && b.Valid() && repr !! b.repr && b.tree.Or?
      modifies repr
      ensures Valid() && fresh(repr - old(repr)) && Value() == GenPair(old(Value()), b.tree, outer)
      decreases b.tree, 0
    {
      hide Gen, Append, BvmAsm.Valid, Value, BoolexpNode.Valid;
      b.PairParts();
      var lbl := GenLabelId();
      if outer == UnderNot || outer == UnderAnd { AppendInsn(PAREN, 0); }
      GenerateBvmAsm1(b.data.a, UnderOr);
      AppendInsn(JMPT, lbl);
      GenerateBvmAsm1(b.data.b, UnderOr);
      if outer == UnderNot || outer == UnderAnd { AppendInsn(PAREN, 1); }
      AppendInsn(LABEL, lbl);
    }

    /** The cases that test something. */
    method GenerateTest(b: BoolexpNode)
      requires Valid() && b.Valid() && repr !! b.repr && IsAtom(b.tree)
      modifies repr
      ensures Valid() && fresh(repr - old(repr)) && Value() == GenAtom(old(Value()), b.tree)
    {
      hide Append, AppendString, BvmAsm.Valid, Value;
      match b.kind {
        case BOOLEXP_IND =>
          AppendInsnString(LOADS, b.data.lock);
          AppendInsn(TIND, b.thing);
        case BOOLEXP_IS => AppendInsn(TIS, b.thing);
        case BOOLEXP_CARRY => AppendInsn(TCARRY, b.thing);
        case BOOLEXP_OWNER => AppendInsn(TOWNER, b.thing);
        case BOOLEXP_CONST => AppendInsn(TCONST, b.thing);
        case BOOLEXP_BOOL => AppendInsn(LOADR, b.thing);
        case BOOLEXP_ATR =>
          AppendInsnString(LOADS, b.data.name);
          AppendInsnString(TATR, b.data.text);
        case BOOLEXP_EVAL =>
          AppendInsnString(LOADS, b.data.name);
          AppendInsnString(TEVAL, b.data.text);
        case BOOLEXP_FLAG => AppendInsnString(FlagOp(b.data.key), b.data.value);
      }
    }

    method GenerateBvmAsm(b: BoolexpNode)
      requires Valid() && b.Valid() && repr !! b.repr
      requires Value() == Asm([], [], 0)
      modifies repr
      ensures Valid() && fresh(repr - old(repr)) && Value() == Generate(b.tree)
    {
      GenerateBvmAsm1(b, Alone);
      AppendInsn(RET, 0);
    }

    // ----- Threading

    /** The list ends in a RET, as it does once code has been generated. */
    ghost predicate EndsInRet()
      reads this`nodes, nodes`op
    {
      |nodes| > 0 && nodes[|nodes| - 1].op == RET
    }

    /** The instruction that a jump to `l` goes to. */
    method InsnAfterLabel(l: int) returns (n: AsmNode?, ghost t: nat)
      requires AsmList(nodes, head, tail) && EndsInRet()
      ensures t == Target(Code(nodes), l) && n == AsmAt(nodes, t)
    {
      hide Code, LabelPos, SkipLabels;
      n, t := head, 0;
      while n != null
        invariant t <= |nodes| && n == AsmAt(nodes, t) && forall k :: 0 <= k < t ==> Code(nodes)[k] != Insn(LABEL, l)
        decreases |nodes| - t
      {
        if n.op == LABEL && n.arg == l {
          LabelPosIs(Code(nodes), l, t);
          n, t := AfterLabels(n, t);
          return;
        }
        n, t := n.next, t + 1;
      }
      LabelPosIs(Code(nodes), l, t);
      SkipNone(Code(nodes), t);
    }

    /** The first instruction behind the label `from` that is not a label. */
    method AfterLabels(from: AsmNode, ghost i: nat) returns (n: AsmNode, ghost t: nat)
      requires AsmList(nodes, head, tail) && EndsInRet() && i < |nodes| && from == nodes[i] && from.op == LABEL
      ensures t == SkipLabels(Code(nodes), i) && n == AsmAt(nodes, t)
    {
      hide Code;
      n, t := from.next, i + 1;
      while n.op == LABEL
        invariant t < |nodes| && n == nodes[t] && SkipLabels(Code(nodes), t) == SkipLabels(Code(nodes), i)
        decreases |nodes| - t
      {
        n, t := n.next, t + 1;
      }
    }

    method OptimizeBvmAsm()
      requires Valid() && EndsInRet() && Threadable(Code(nodes), labelId)
      modifies repr
      ensures Valid() && fresh(repr - old(repr)) && Texts(snodes) == old(Texts(snodes))
      ensures (Code(nodes), labelId) == old(Thread(Code(nodes), labelId, 0))
    {
      hide Code, Texts, StrList, LengthsKept, EndsInRet, Threadable, Thread, LandsOnJump, ThreadOnce, Real, LeadingLabels, Reach, BvmAsm.Valid, AsmList;
      HeadIs();
      var n := head;
      ghost var i := 0;
      while n != null
        invariant Valid() && EndsInRet() && fresh(repr - old(repr)) && Texts(snodes) == old(Texts(snodes))
        invariant i <= |nodes| && n == AsmAt(nodes, i) && Threadable(Code(nodes), labelId)
        invariant Thread(Code(nodes), labelId, i) == old(Thread(Code(nodes), labelId, 0))
        decreases Real(Code(nodes), i), LeadingLabels(Code(nodes), i), Reach(Code(nodes), i)
      {
        ThreadStep(Code(nodes), labelId, i);
        var jumped := ThreadAt(n, i);
        if !jumped {
          NextIs(i);
          n, i := n.next, i + 1;
        }
      }
      ThreadStep(Code(nodes), labelId, i);
    }

    lemma HeadIs()
      requires Valid()
      ensures head == AsmAt(nodes, 0)
    {
      hide StrList, LengthsKept;
    }

    lemma NextIs(i: nat)
      requires Valid() && i < |nodes|
      ensures nodes[i].next == AsmAt(nodes, i + 1)
    {
      hide StrList, LengthsKept;
    }

    /** If `n` is a jump that lands on a jump, send it one further. */
    method ThreadAt(n: AsmNode, ghost i: nat) returns (jumped: bool)
      requires Valid() && EndsInRet() && i < |nodes| && n == nodes[i] && Threadable(Code(nodes), labelId)
      modifies repr
      ensures Valid() && EndsInRet() && fresh(repr - old(repr)) && Texts(snodes) == old(Texts(snodes))
      ensures i < |nodes| && n == nodes[i]
      ensures jumped == old(LandsOnJump(Code(nodes), i))
      ensures (Code(nodes), labelId) == old(if LandsOnJump(Code(nodes), i) then ThreadOnce(Code(nodes), labelId, i) else (Code(nodes), labelId))
    {
      hide Code, Texts, AsmList, StrList, Target, ThreadOnce, Threadable, LabelPos;
      jumped := false;
      if n.op == JMPT || n.op == JMPF {
        var target;
        ghost var t;
        target, t := InsnAfterLabel(n.arg);
        if target != null && (target.op == JMPT || target.op == JMPF) {
          TargetAhead(Code(nodes), labelId, i);
          ThreadJump(n, target, i, t);
          jumped := true;
        }
      }
    }

    /** Send the jump `n` past the jump `target`, on which it lands. */
    method ThreadJump(n: AsmNode, target: AsmNode, ghost i: nat, ghost t: nat)
      requires Valid() && EndsInRet() && i < |nodes| && t < |nodes| && n == nodes[i] && target == nodes[t]
      requires LandsOnJump(Code(nodes), i) && i < t == Target(Code(nodes), n.arg)
      modifies repr
      ensures Valid() && EndsInRet() && fresh(repr - old(repr)) && Texts(snodes) == old(Texts(snodes))
      ensures i < |nodes| && n == nodes[i]
      ensures (Code(nodes), labelId) == old(ThreadOnce(Code(nodes), labelId, i))
    {
      hide Code, Texts, Target, BvmAsm.Valid, EndsInRet, ThreadOnce, LandsOnJump, Redirect, InsertLabel;
      OnceIs(Code(nodes), labelId, i, t);
      if target.op == n.op {
        SetArg(n, target.arg, i);
      } else {
        var l := GenLabelId();
        SetArg(n, l, i);
        InsertAfter(target, l, t);
      }
    }

    method SetArg(n: AsmNode, arg: int, ghost i: nat)
      requires Valid() && i < |nodes| && n == nodes[i]
      modifies n`arg
      ensures Valid() && n.arg == arg && (old(EndsInRet()) ==> EndsInRet())
      ensures Code(nodes) == Redirect(old(Code(nodes)), i, arg) && Texts(snodes) == old(Texts(snodes))
    {
      hide Code, Texts, StrList;
      ghost var code := Code(nodes);
      n.arg := arg;
      assert Code(nodes) == code[i := Insn(n.op, arg)];
    }

    /** Put a new label into the list behind `target`. */
    method InsertAfter(target: AsmNode, l: nat, ghost t: nat)
      requires Valid() && EndsInRet() && t < |nodes| && target == nodes[t] && target.op != RET
      modifies repr
      ensures Valid() && EndsInRet() && fresh(repr - old(repr)) && labelId == old(labelId)
      ensures |nodes| > |old(nodes)| && forall k :: 0 <= k <= t ==> nodes[k] == old(nodes)[k]
      ensures Code(nodes) == InsertLabel(old(Code(nodes)), t, l) && Texts(snodes) == old(Texts(snodes))
    {
      hide Code, Texts, AsmList, StrList, LengthsKept, Inserted, EndsInRet;
      RetLast(t);
      var newlbl := new AsmNode(LABEL, l);
      ghost var was := nodes;
      LinkAfter(target, newlbl, t);
      repr := repr + {newlbl};
      InsertedKeeps(was, nodes, t, newlbl);
      RetStays(was[|was| - 1]);
      LabelInserted(was, nodes, t, newlbl);
    }

    lemma RetLast(t: nat)
      requires EndsInRet() && t < |nodes| && nodes[t].op != RET
      ensures nodes[|nodes| - 1].op == RET && t < |nodes| - 1
    {
    }

    lemma RetStays(ret: AsmNode)
      requires |nodes| > 0 && nodes[|nodes| - 1] == ret && ret.op == RET
      ensures EndsInRet()
    {
    }

    method LinkAfter(target: AsmNode, n: AsmNode, ghost t: nat)
      requires AsmList(nodes, head, tail) && t < |nodes| && target == nodes[t] && n !in nodes
      modifies n`next, target`next, this`tail, this`nodes
      ensures AsmList(nodes, head, tail) && Inserted(old(nodes), nodes, t, n)
    {
      hide Inserted, AsmList;
      AsmListIs(nodes, head, tail);
      n.next := target.next;
      target.next := n;
      if tail == target { tail := n; }
      ghost var ms := nodes[..t + 1] + [n] + nodes[t + 1..];
      InsertedIs(nodes, t, n);
      AsmInserted(nodes, ms, head, t, n);
      nodes := ms;
    }

    // ----- Emitting

    method FindPosOfLabel(l: int) returns (offset: nat)
      requires AsmList(nodes, head, tail)
      ensures offset == PosOfLabel(Code(nodes), l)
    {
      hide Code;
      offset := 0;
      var a := head;
      ghost var code, i := Code(nodes), 0;
      while a != null
        invariant i <= |nodes| && a == AsmAt(nodes, i)
        invariant offset + PosOfLabel(code[i..], l) == PosOfLabel(code, l)
        decreases |nodes| - i
      {
        assert code[i..][0] == code[i] && code[i..][1..] == code[i + 1..];
        if a.op == LABEL && a.arg == l { return; }
        if a.op != LABEL { offset := offset + 1; }
        a, i := a.next, i + 1;
      }
    }

    method OffsetToString(c: int) returns (offset: nat)
      requires StrList(snodes, shead, stail) && LengthsKept(snodes) && c >= 0
      ensures offset == StringOffset(Texts(snodes), c)
    {
      hide Texts, LengthsKept, StringOffset;
      offset := 0;
      var n, s := 0, shead;
      while s != null
        invariant 0 <= n <= |snodes| && n <= c && s == StrAt(snodes, n)
        invariant offset + StringOffset(Texts(snodes)[n..], c - n) == StringOffset(Texts(snodes), c)
        decreases |snodes| - n
      {
        OffsetStep(snodes, n, c);
        if n == c { return; }
        offset := offset + s.len;
        s, n := s.next, n + 1;
      }
      OffsetStep(snodes, n, c);
    }

    lemma OffsetStep(nodes: seq<StrNode>, n: nat, c: int)
      requires LengthsKept(nodes) && n <= |nodes| && n <= c
      ensures StringOffset(Texts(nodes)[n..], c - n) ==
              if n < |nodes| && n < c then nodes[n].len + StringOffset(Texts(nodes)[n + 1..], c - (n + 1)) else 0
    {
      var strs := Texts(nodes);
      hide Texts;
      if n < |nodes| {
        assert nodes[n] in nodes;
        assert strs[n..][0] == strs[n] && strs[n..][1..] == strs[n + 1..];
      }
    }

    /** Emit the instructions and then the strings.  The arguments in the list
        are overwritten with the final ones. */
    method EmitBytecode() returns (bytes: seq<Byte>)
      requires Valid() && Numbered(Code(nodes))
      modifies nodes
      ensures bytes == old(Emit(Code(nodes), Texts(snodes)))
    {
      hide Code, Texts;
      var len, i := 0, head;
      ghost var code, k := Code(nodes), 0;
      while i != null
        invariant k <= |nodes| && i == AsmAt(nodes, k) && len + Real(code, k) == Real(code, 0)
        decreases |nodes| - k
      {
        if i.op != LABEL { len := len + 1; }
        i, k := i.next, k + 1;
      }
      bytes := EmitInsns(len * INSN_LEN);
      bytes := EmitStrings(bytes);
    }

    method EmitInsns(blen: nat) returns (bytes: seq<Byte>)
      requires Valid() && Numbered(Code(nodes)) && blen == Real(Code(nodes), 0) * INSN_LEN
      modifies nodes
      ensures bytes == old(EmitFrom(Code(nodes), Texts(snodes), 0))
      ensures Valid() && Texts(snodes) == old(Texts(snodes))
    {
      hide Code, Texts, Real, StrList, LengthsKept, Numbered, ArgsAside, EmitInsn, EmitFrom;
      bytes := [];
      var i := head;
      ghost var code, strs, k := Code(nodes), Texts(snodes), 0;
      NothingAside(code);
      while i != null
        invariant k <= |nodes| && i == AsmAt(nodes, k) && Valid() && Texts(snodes) == strs && Numbered(Code(nodes))
        invariant ArgsAside(code, Code(nodes), k)
        invariant bytes + EmitFrom(code, strs, k) == EmitFrom(code, strs, 0)
        decreases |nodes| - k
      {
        EmitNext(code, strs, k);
        AsideOne(code, Code(nodes), k);
        if i.op != LABEL {
          var b := EmitNode(i, blen, code, k);
          Regroup(bytes, b, EmitFrom(code, strs, k + 1));
          bytes := bytes + b;
        }
        i, k := i.next, k + 1;
      }
      EmitNext(code, strs, k);
      assert bytes + [] == bytes;
    }

    /** One instruction, with its argument made final. */
    method EmitNode(i: AsmNode, blen: nat, ghost code: seq<Insn>, ghost k: nat) returns (b: seq<Byte>)
      requires Valid() && Numbered(Code(nodes)) && k < |nodes| && i == nodes[k] && i.op != LABEL
      requires ArgsAside(code, Code(nodes), k) && blen == Real(code, 0) * INSN_LEN
      modifies i`arg
      ensures b == EmitInsn(code, Texts(snodes), code[k]) && Texts(snodes) == old(Texts(snodes))
      ensures Valid() && Numbered(Code(nodes)) && ArgsAside(code, Code(nodes), k + 1)
    {
      hide Code, Texts, BvmAsm.Valid, ArgsAside, Redirect, EncodeInt, FinalArg, Real, Numbered, HasString, EndsInRet;
      AsideOne(code, Code(nodes), k);
      var arg := FinalArgOf(i, blen, code, k);
      AsideRedirect(code, Code(nodes), k, arg);
      SetArg(i, arg, k);
      b := [OpNumber(i.op)] + EncodeInt(i.arg);
    }

    method FinalArgOf(i: AsmNode, blen: nat, ghost code: seq<Insn>, ghost k: nat) returns (arg: int)
      requires Valid() && Numbered(Code(nodes)) && k < |nodes| && i == nodes[k] && i.op != LABEL
      requires ArgsAside(code, Code(nodes), k) && blen == Real(code, 0) * INSN_LEN
      ensures arg == FinalArg(code, Texts(snodes), code[k]) && (HasString(i.op) ==> arg >= 0)
    {
      hide Code, Texts, AsmList, StrList, LengthsKept, ArgsAside, PosOfLabel, StringOffset, Real;
      AsideOne(code, Code(nodes), k);
      arg := i.arg;
      if IsJump(i.op) {
        var p := FindPosOfLabel(i.arg);
        LabelsAside(code, Code(nodes), k, i.arg);
        arg := p * INSN_LEN;
      } else if HasString(i.op) {
        var o := OffsetToString(i.arg);
        arg := blen + o;
      }
    }

    method EmitStrings(start: seq<Byte>) returns (bytes: seq<Byte>)
      requires StrList(snodes, shead, stail)
      ensures bytes == start + StringSection(Texts(snodes))
    {
      hide Texts;
      bytes := start;
      var s := shead;
      ghost var strs, i := Texts(snodes), 0;
      while s != null
        invariant i <= |snodes| && s == StrAt(snodes, i)
        invariant bytes + StringSection(strs[i..]) == start + StringSection(strs)
        decreases |snodes| - i
      {
        assert strs[i..][0] == strs[i] && strs[i..][1..] == strs[i + 1..];
        Regroup(bytes, strs[i] + [0], StringSection(strs[i + 1..]));
        bytes := bytes + (s.s + [0]);
        s, i := s.next, i + 1;
      }
    }
  }

  lemma Regroup(x: seq<Byte>, y: seq<Byte>, z: seq<Byte>)
    ensures x + (y + z) == (x + y) + z
  {
  }

  /** Each instruction that uses a string has the number of one. */
  ghost predicate Numbered(code: seq<Insn>) {
    forall i :: 0 <= i < |code| && HasString(code[i].op) ==> code[i].arg >= 0
  }

  /** Two codes differ in the arguments of instructions before `k` at most. */
  ghost predicate ArgsAside(c: seq<Insn>, d: seq<Insn>, k: nat) {
    |c| == |d| && forall i :: 0 <= i < |c| ==> d[i].op == c[i].op && (i >= k || c[i].op == LABEL ==> d[i] == c[i])
  }

  lemma NothingAside(c: seq<Insn>)
    ensures ArgsAside(c, c, 0)
  {
  }

  lemma AsideOne(c: seq<Insn>, d: seq<Insn>, k: nat)
    requires ArgsAside(c, d, k) && k < |d|
    ensures |c| == |d| && d[k] == c[k] && (d[k].op == LABEL ==> ArgsAside(c, d, k + 1))
  {
  }

  lemma AsideRedirect(c: seq<Insn>, d: seq<Insn>, k: nat, arg: int)
    requires ArgsAside(c, d, k) && k < |c| && d[k].op != LABEL
    ensures ArgsAside(c, Redirect(d, k, arg), k + 1)
    ensures Numbered(d) && (HasString(d[k].op) ==> arg >= 0) ==> Numbered(Redirect(d, k, arg))
  {
  }

  /** They have their labels in the same places. */
  lemma {:induction false} LabelsAside(c: seq<Insn>, d: seq<Insn>, k: nat, l: int)
    requires ArgsAside(c, d, k)
    ensures PosOfLabel(d, l) == PosOfLabel(c, l)
  {
    if c != [] { LabelsAside(c[1..], d[1..], if k > 0 then k - 1 else 0, l); }
  }

  lemma EmitNext(code: seq<Insn>, strs: seq<Text>, i: nat)
    ensures EmitFrom(code, strs, i) ==
            if i >= |code| then []
            else if code[i].op == LABEL then EmitFrom(code, strs, i + 1)
            else EmitInsn(code, strs, code[i]) + EmitFrom(code, strs, i + 1)
  {
    hide EmitInsn;
  }

  lemma RedirectInsert(code: seq<Insn>, i: nat, t: nat, l: int)
    requires i < |code| && i < t < |code|
    ensures InsertLabel(Redirect(code, i, l), t, l) == Redirect(InsertLabel(code, t, l), i, l)
  {
  }

  /** One threading step, with the new label put in last. */
  lemma OnceIs(code: seq<Insn>, labels: nat, i: nat, t: nat)
    requires i < |code| && LandsOnJump(code, i) && i < t == Target(code, code[i].arg)
    ensures t < |code| && IsJump(code[t].op)
    ensures |Redirect(code, i, labels)| == |code|
    ensures ThreadOnce(code, labels, i) ==
            if code[t].op == code[i].op then (Redirect(code, i, code[t].arg), labels)
            else (InsertLabel(Redirect(code, i, labels), t, labels), labels + 1)
  {
    RedirectInsert(code, i, t, labels);
    hide Target, InsertLabel;
  }

  /** One turn of the threading loop. */
  lemma ThreadStep(code: seq<Insn>, labels: nat, i: nat)
    requires Threadable(code, labels)
    ensures i >= |code| ==> Thread(code, labels, i) == (code, labels)
    ensures i < |code| && !LandsOnJump(code, i) ==>
              && Thread(code, labels, i) == Thread(code, labels, i + 1)
              && (Real(code, i + 1) < Real(code, i)
                  || (Real(code, i + 1) == Real(code, i) && LeadingLabels(code, i + 1) < LeadingLabels(code, i)))
    ensures i < |code| && LandsOnJump(code, i) ==>
              var once := ThreadOnce(code, labels, i);
              && Threadable(once.0, once.1) && Thread(code, labels, i) == Thread(once.0, once.1, i)
              && Real(once.0, i) == Real(code, i) && LeadingLabels(once.0, i) == LeadingLabels(code, i)
              && Reach(once.0, i) < Reach(code, i)
  {
    hide Threadable, ThreadOnce;
    if i < |code| && LandsOnJump(code, i) {
      ThreadOnceThreadable(code, labels, i);
      ThreadOnceDecreases(code, labels, i);
    }
  }

  lemma SkipNone(code: seq<Insn>, i: nat)
    requires i >= |code|
    ensures SkipLabels(code, i) == i
  {
  }

  lemma FindStringIs(strs: seq<Text>, s: Text, k: nat)
    requires k <= |strs| && (k < |strs| ==> strs[k] == s)
    requires forall j :: 0 <= j < k ==> strs[j] != s
    ensures FindString(strs, s) == k
  {
  }

  /** The stages after parsing, in the order in which they run. */
  method CompileLock(ast: BoolexpNode) returns (bytes: seq<Byte>)
    requires ast.Valid()
    modifies ast.repr
    ensures bytes == Compile(old(ast.tree))
  {
    hide Generate, Thread, Emit, Threadable, Optimize, Code, Texts, AsmList, StrList, LengthsKept, Numbered;
    OptimizeBvmAst(ast);
    var bvasm := new BvmAsm();
    bvasm.GenerateBvmAsm(ast);
    Stages(ast.tree);
    bvasm.OptimizeBvmAsm();
    bytes := bvasm.EmitBytecode();
  }

  /** What each stage needs of the code that the one before it has made. */
  lemma Stages(n: Node)
    ensures var a := Generate(n);
            && Threadable(a.insns, a.labels) && |a.insns| > 0 && a.insns[|a.insns| - 1].op == RET
            && Numbered(Thread(a.insns, a.labels, 0).0)
  {
    hide Generate, Thread, Threadable;
    var a := Generate(n);
    GenerateThreadable(n);
    GenerateWellFormed(n);
    ThreadWellFormed(a.insns, a.labels, 0, |a.strs|);
    var code := Thread(a.insns, a.labels, 0).0;
    forall i | 0 <= i < |code| && HasString(code[i].op) ensures code[i].arg >= 0 {
      assert StringReady(code, i, 0, |a.strs|);
    }
  }
}
