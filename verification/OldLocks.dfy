/** Locks read from old databases, the text the conversion tool prints for
    them, and what the server makes of that text. */
module OldLocks {
  import opened Bytes
  import opened LockTree
  import opened LockAsm
  import opened LockGrammar

  datatype Mark = IsMark | CarryMark | OwnerMark | NoMark

  datatype OldLock =
    | OldNot(be: OldLock)
    | OldSimple(mark: Mark, obj: int)
    | OldInd(obj: int, lock: Option<Text>)
    | OldBool(val: bool)
    | OldAtr(name: Text, value: Text)
    | OldEval(name: Text, value: Text)
    | OldFlag(key: FlagKey, value: Text)
    | OldAndOr(left: OldLock, isAnd: bool, right: OldLock)

  /** The tree the server should end up with.  An indirect lock without a lock
      name means the lock that is being read, `ltype`. */
  function TreeOf(o: OldLock, ltype: Text): Node {
    match o
    case OldNot(be) => Not(TreeOf(be, ltype))
    case OldSimple(IsMark, x) => Is(x)
    case OldSimple(CarryMark, x) => Carry(x)
    case OldSimple(OwnerMark, x) => Owner(x)
    case OldSimple(NoMark, x) => Const(x)
    case OldInd(x, lock) => Ind(x, if lock.Some? then lock.value else ltype)
    case OldBool(v) => Bool(v)
    case OldAtr(name, value) => Atr(name, value)
    case OldEval(name, value) => Eval(name, value)
    case OldFlag(key, value) => Flag(key, value)
    case OldAndOr(l, isAnd, r) => if isAnd then And(TreeOf(l, ltype), TreeOf(r, ltype)) else Or(TreeOf(l, ltype), TreeOf(r, ltype))
  }

  /** What the `print` methods write.  `pnot` asks an AND or OR for parentheses;
      a NOT and an AND ask, an OR does not. */
  function PrintOld(o: OldLock, pnot: bool, ltype: Text): Tokens {
    match o
    case OldNot(be) => [TkNot] + PrintOld(be, true, ltype)
    case OldAndOr(l, isAnd, r) =>
      (if pnot then [TkOpen] else [])
      + PrintOld(l, isAnd, ltype) + [if isAnd then TkAnd else TkOr] + PrintOld(r, isAnd, ltype)
      + (if pnot then [TkClose] else [])
    case _ => [TkAtom(TreeOf(o, ltype))]
  }

  lemma {:induction false} PrintOldIsPrint(o: OldLock, outer: Outer, ltype: Text)
    ensures PrintOld(o, outer == UnderNot || outer == UnderAnd, ltype) == Print(DbTools, TreeOf(o, ltype), outer)
  {
    match o
    case OldNot(be) => PrintOldIsPrint(be, UnderNot, ltype);
    case OldAndOr(l, isAnd, r) =>
      PrintOldIsPrint(l, if isAnd then UnderAnd else UnderOr, ltype);
      PrintOldIsPrint(r, if isAnd then UnderAnd else UnderOr, ltype);
      PrintedPair(o, outer, ltype);
      hide PrintOld, Print;
    case _ =>
  }

  lemma PrintedPair(o: OldLock, outer: Outer, ltype: Text)
    requires o.OldAndOr?
    requires var inner := if o.isAnd then UnderAnd else UnderOr;
             && PrintOld(o.left, o.isAnd, ltype) == Print(DbTools, TreeOf(o.left, ltype), inner)
             && PrintOld(o.right, o.isAnd, ltype) == Print(DbTools, TreeOf(o.right, ltype), inner)
    ensures PrintOld(o, outer == UnderNot || outer == UnderAnd, ltype) == Print(DbTools, TreeOf(o, ltype), outer)
  {
    var n, inner := TreeOf(o, ltype), if o.isAnd then UnderAnd else UnderOr;
    var ts := Print(DbTools, n.a, inner) + [if o.isAnd then TkAnd else TkOr] + Print(DbTools, n.b, inner);
    assert Print(DbTools, n, outer) == Wrap(DbTools, n, outer, ts);
    assert PrintOld(o, outer == UnderNot || outer == UnderAnd, ltype) ==
           (if outer == UnderNot || outer == UnderAnd then [TkOpen] else []) + PrintOld(o.left, o.isAnd, ltype)
           + [if o.isAnd then TkAnd else TkOr] + PrintOld(o.right, o.isAnd, ltype) + (if outer == UnderNot || outer == UnderAnd then [TkClose] else []);
    hide Print, PrintOld, TreeOf;
    Regrouped(PrintOld(o.left, o.isAnd, ltype), [if o.isAnd then TkAnd else TkOr], PrintOld(o.right, o.isAnd, ltype));
  }

  lemma Regrouped(x: Tokens, y: Tokens, z: Tokens)
    ensures [] + x + y + z + [] == x + y + z
    ensures [TkOpen] + x + y + z + [TkClose] == [TkOpen] + (x + y + z) + [TkClose]
  {
  }

  /** No OR is the left part of an OR. */
  predicate OrsRightNested(n: Node) {
    match n
    case And(a, b) => OrsRightNested(a) && OrsRightNested(b)
    case Or(a, b) => !a.Or? && OrsRightNested(a) && OrsRightNested(b)
    case Not(m) => OrsRightNested(m)
    case _ => true
  }

  lemma {:induction false} JoinOrNested(a: Node, b: Node)
    requires OrsRightNested(a) && OrsRightNested(b)
    ensures OrsRightNested(JoinOr(a, b))
  {
    if a.Or? { JoinOrNested(a.b, b); }
  }

  lemma {:induction false} NestIsNested(n: Node)
    ensures OrsRightNested(Nest(DbTools, n))
  {
    match n
    case And(a, b) => NestIsNested(a); NestIsNested(b);
    case Or(a, b) => NestIsNested(a); NestIsNested(b); JoinOrNested(Nest(DbTools, a), Nest(DbTools, b));
    case Not(m) => NestIsNested(m);
    case _ =>
  }

  lemma {:induction false} NestedIsKept(n: Node)
    requires OrsRightNested(n)
    ensures Nest(DbTools, n) == n
  {
    match n
    case And(a, b) => NestedIsKept(a); NestedIsKept(b);
    case Or(a, b) => NestedIsKept(a); NestedIsKept(b);
    case Not(m) => NestedIsKept(m);
    case _ =>
  }

  /** The server reads a converted lock to the end and gets the old tree with
      nothing but its chains of | regrouped: the very same tree just when no OR
      was the left part of an OR. */
  lemma ConvertedLockReads(o: OldLock, ltype: Text)
    ensures var t := TreeOf(o, ltype);
            && ParseE(PrintOld(o, false, ltype)) == Ok(Nest(DbTools, t), [])
            && (Nest(DbTools, t) == t <==> OrsRightNested(t))
  {
    PrintOldIsPrint(o, Alone, ltype);
    PrintParses(DbTools, TreeOf(o, ltype));
    NestIsNested(TreeOf(o, ltype));
    if OrsRightNested(TreeOf(o, ltype)) { NestedIsKept(TreeOf(o, ltype)); }
  }

  /** So a converted lock means what the old one meant. */
  lemma ConvertedLockMeaning<S>(w: World<S>, o: OldLock, ltype: Text, s: S)
    ensures var p := ParseE(PrintOld(o, false, ltype));
            p.Ok? && EvalNode(w, p.n, false, s) == EvalNode(w, TreeOf(o, ltype), false, s)
  {
    ConvertedLockReads(o, ltype);
    NestMeaning(DbTools, w, TreeOf(o, ltype), false, s);
  }
}
