/** The parse tree of a lock, what it means, and the rewriting done on it
    before code is generated. */
module LockTree {
  import opened Bytes

  /** The key names allowed before a `^`, other than OBJID (which the parser
      turns into an `Is` node). */
  datatype FlagKey = FLAG | POWER | TYPE | NAME | CHANNEL | IP | HOSTNAME | DBREFLIST

  datatype Node =
    | And(a: Node, b: Node)
    | Or(a: Node, b: Node)
    | Not(n: Node)
    | Const(thing: int)
    | Atr(name: Text, text: Text)
    | Ind(thing: int, lock: Text)
    | Carry(thing: int)
    | Is(thing: int)
    | Owner(thing: int)
    | Eval(name: Text, text: Text)
    | Flag(key: FlagKey, text: Text)
    | Bool(value: bool)

  datatype ObjType = Room | Exit | Thing | Player

  /** A test whose outcome comes from outside the lock, and which may run
      softcode while it is being decided. */
  datatype Probe =
    | ProbeAtr(name: Text, text: Text)
    | ProbeEval(name: Text, text: Text)
    | ProbeInd(thing: int, lock: Text)
    | ProbeOwner(thing: int)
    | ProbeFlag(key: FlagKey, text: Text)

  /** Everything a lock can ask about.  `S` is the state of the rest of the
      server; a probe may change it, so two evaluations that end in the same
      state for every `S` and every `probe` made the same probes in the same
      order. */
  datatype World<!S> = World(
    player: int,
    live: (S, int) -> bool,        // a good object that is not garbage
    holds: (S, int) -> bool,       // in the player's contents
    kind: S -> ObjType,            // type of the player
    probe: (S, Probe) -> (bool, S)
  )

  // ----- The tests, one per kind of atom

  function TestIs<S>(w: World<S>, thing: int, s: S): bool {
    w.live(s, thing) && thing == w.player
  }

  function TestCarry<S>(w: World<S>, thing: int, s: S): bool {
    w.live(s, thing) && w.holds(s, thing)
  }

  function TestConst<S>(w: World<S>, thing: int, s: S): bool {
    w.live(s, thing) && (thing == w.player || w.holds(s, thing))
  }

  /** `$thing` and `@thing/lock` ask nothing when the object is not live. */
  function TestLive<S>(w: World<S>, thing: int, p: Probe, s: S): (bool, S) {
    if w.live(s, thing) then w.probe(s, p) else (false, s)
  }

  /** `TYPE^text` looks at the first letter only, and leaves the result
      register as it was when that letter is not one it knows. */
  function TestType(text: Text, kind: ObjType, r: bool): bool {
    var c := if text == [] then 0 else text[0];
    if c == 'R' as int || c == 'r' as int then kind == Room
    else if c == 'E' as int || c == 'e' as int then kind == Exit
    else if c == 'T' as int || c == 't' as int then kind == Thing
    else if c == 'P' as int || c == 'p' as int then kind == Player
    else r
  }

  function TestFlag<S>(w: World<S>, key: FlagKey, text: Text, r: bool, s: S): (bool, S) {
    if key == TYPE then (TestType(text, w.kind(s), r), s) else w.probe(s, ProbeFlag(key, text))
  }

  /** The short-circuit value of a lock.  `r` is the value left by whatever
      was evaluated before, which only a `TYPE^` test can see. */
  function EvalNode<S>(w: World<S>, n: Node, r: bool, s: S): (bool, S) {
    match n
    case And(a, b) =>
      var (ra, sa) := EvalNode(w, a, r, s);
      if ra then EvalNode(w, b, ra, sa) else (ra, sa)
    case Or(a, b) =>
      var (ra, sa) := EvalNode(w, a, r, s);
      if ra then (ra, sa) else EvalNode(w, b, ra, sa)
    case Not(m) =>
      var (rm, sm) := EvalNode(w, m, r, s);
      (!rm, sm)
    case Const(x) => (TestConst(w, x, s), s)
    case Is(x) => (TestIs(w, x, s), s)
    case Carry(x) => (TestCarry(w, x, s), s)
    case Owner(x) => TestLive(w, x, ProbeOwner(x), s)
    case Ind(x, lock) => TestLive(w, x, ProbeInd(x, lock), s)
    case Atr(name, text) => w.probe(s, ProbeAtr(name, text))
    case Eval(name, text) => w.probe(s, ProbeEval(name, text))
    case Flag(key, text) => TestFlag(w, key, text, r, s)
    case Bool(v) => (v, s)
  }

  /** Two worlds that answer alike give every lock the same value. */
  lemma {:induction false} EvalNodeCongruence<S(!new)>(w: World<S>, v: World<S>, n: Node, r: bool, s: S)
    requires w.player == v.player
    requires forall t: S, x: int :: w.live(t, x) == v.live(t, x)
    requires forall t: S, x: int :: w.holds(t, x) == v.holds(t, x)
    requires forall t: S :: w.kind(t) == v.kind(t)
    requires forall t: S, p: Probe :: w.probe(t, p) == v.probe(t, p)
    ensures EvalNode(w, n, r, s) == EvalNode(v, n, r, s)
  {
    match n
    case And(a, b) =>
      EvalNodeCongruence(w, v, a, r, s);
      var (ra, sa) := EvalNode(w, a, r, s);
      EvalNodeCongruence(w, v, b, ra, sa);
    case Or(a, b) =>
      EvalNodeCongruence(w, v, a, r, s);
      var (ra, sa) := EvalNode(w, a, r, s);
      EvalNodeCongruence(w, v, b, ra, sa);
    case Not(m) => EvalNodeCongruence(w, v, m, r, s);
    case _ =>
  }

  // ----- What a lock means

  function TypeName(t: ObjType): Text {
    match t
    case Room => [82, 79, 79, 77]
    case Exit => [69, 88, 73, 84]
    case Thing => [84, 72, 73, 78, 71]
    case Player => [80, 76, 65, 89, 69, 82]
  }

  function Lower(c: Byte): Byte {
    if 65 <= c <= 90 then c + 32 else c
  }

  /** The same but for the case of letters. */
  predicate SameLetters(a: Text, b: Text) {
    |a| == |b| && forall i :: 0 <= i < |a| ==> Lower(a[i]) == Lower(b[i])
  }

  /** `TYPE^` with the name of a type passes exactly the objects of that type,
      whatever was evaluated before. */
  lemma TypeNamed<S>(w: World<S>, text: Text, t: ObjType, r: bool, s: S)
    requires SameLetters(text, TypeName(t))
    ensures EvalNode(w, Flag(TYPE, text), r, s) == (w.kind(s) == t, s)
  {
    assert Lower(text[0]) == Lower(TypeName(t)[0]);
  }

  /** With a text that begins like none of them it passes what passed before. */
  lemma TypeUnknown<S>(w: World<S>, text: Text, r: bool, s: S)
    requires text != [] ==> forall t :: Lower(text[0]) != Lower(TypeName(t)[0])
    ensures EvalNode(w, Flag(TYPE, text), r, s) == (r, s)
  {
    forall t ensures text != [] ==> Lower(text[0]) != Lower(TypeName(t)[0]) { }
    assert text != [] ==> Lower(text[0]) != Lower(TypeName(Room)[0]) && Lower(text[0]) != Lower(TypeName(Exit)[0])
                          && Lower(text[0]) != Lower(TypeName(Thing)[0]) && Lower(text[0]) != Lower(TypeName(Player)[0]);
  }

  /** A test of an object that is gone fails and asks nothing; of one that is
      there, `=x` passes that object itself, `+x` who carries it, `x` both, and
      only `$x` and `@x/lock` have to ask. */
  lemma ObjectTests<S>(w: World<S>, x: int, lock: Text, r: bool, s: S)
    ensures !w.live(s, x) ==>
              forall n :: n in {Is(x), Carry(x), Const(x), Owner(x), Ind(x, lock)} ==> EvalNode(w, n, r, s) == (false, s)
    ensures w.live(s, x) ==>
              && EvalNode(w, Is(x), r, s) == (x == w.player, s) && EvalNode(w, Carry(x), r, s) == (w.holds(s, x), s)
              && EvalNode(w, Const(x), r, s) == EvalNode(w, Or(Is(x), Carry(x)), r, s)
              && EvalNode(w, Owner(x), r, s) == w.probe(s, ProbeOwner(x)) && EvalNode(w, Ind(x, lock), r, s) == w.probe(s, ProbeInd(x, lock))
  {
  }

  /** The tests in a lock. */
  function Tests(n: Node): set<Node> {
    match n
    case And(a, b) => Tests(a) + Tests(b)
    case Or(a, b) => Tests(a) + Tests(b)
    case Not(m) => Tests(m)
    case Bool(_) => {}
    case _ => {n}
  }

  /** A lock as a formula of logic over its tests. */
  predicate Truth(n: Node, v: Node -> bool) {
    match n
    case And(a, b) => Truth(a, v) && Truth(b, v)
    case Or(a, b) => Truth(a, v) || Truth(b, v)
    case Not(m) => !Truth(m, v)
    case Bool(b) => b
    case _ => v(n)
  }

  /** Where every test comes out one way and changes nothing, a lock is the
      formula that it is written as. */
  lemma {:induction false} EvalIsTruth<S>(w: World<S>, n: Node, v: Node -> bool, r: bool, s: S)
    requires forall a, q :: a in Tests(n) ==> EvalNode(w, a, q, s) == (v(a), s)
    ensures EvalNode(w, n, r, s) == (Truth(n, v), s)
  {
    match n
    case And(a, b) => EvalIsTruth(w, a, v, r, s); EvalIsTruth(w, b, v, Truth(a, v), s);
    case Or(a, b) => EvalIsTruth(w, a, v, r, s); EvalIsTruth(w, b, v, Truth(a, v), s);
    case Not(m) => EvalIsTruth(w, m, v, r, s);
    case Bool(_) =>
    case _ => assert n in Tests(n);
  }

  // ----- Rewriting the tree

  function NodeCount(n: Node): nat {
    match n
    case And(a, b) => 1 + NodeCount(a) + NodeCount(b)
    case Or(a, b) => 1 + NodeCount(a) + NodeCount(b)
    case Not(m) => 1 + NodeCount(m)
    case _ => 1
  }

  /** `=x|+x` or `+x|=x`. */
  predicate IsCarryPair(a: Node, b: Node) {
    ((a.Is? && b.Carry?) || (a.Carry? && b.Is?)) && a.thing == b.thing
  }

  function Optimize(n: Node): Node
    decreases n
  {
    match n
    case Or(a, b) =>
      if IsCarryPair(a, b) then Const(a.thing) else Or(Optimize(a), Optimize(b))
    case And(a, b) => And(Optimize(a), Optimize(b))
    case Not(m) =>
      if m.Not? then Optimize(m.n)
      else if m.Bool? then Bool(!m.value)
      else Not(Optimize(m))
    case _ => n
  }

  /** Rewriting changes neither the value of a lock nor the tests made. */
  lemma {:induction false} OptimizePreservesMeaning<S>(w: World<S>, n: Node, r: bool, s: S)
    ensures EvalNode(w, Optimize(n), r, s) == EvalNode(w, n, r, s)
    decreases n
  {
    match n
    case And(a, b) =>
      OptimizePreservesMeaning(w, a, r, s);
      var (ra, sa) := EvalNode(w, a, r, s);
      OptimizePreservesMeaning(w, b, ra, sa);
    case Or(a, b) =>
      if !IsCarryPair(a, b) {
        OptimizePreservesMeaning(w, a, r, s);
        var (ra, sa) := EvalNode(w, a, r, s);
        OptimizePreservesMeaning(w, b, ra, sa);
      }
    case Not(m) =>
      if m.Not? {
        OptimizePreservesMeaning(w, m.n, r, s);
      } else if !m.Bool? {
        OptimizePreservesMeaning(w, m, r, s);
      }
    case _ =>
  }

  /** No NOT directly over a NOT or over a #true/#false. */
  predicate NotsSettled(n: Node) {
    match n
    case And(a, b) => NotsSettled(a) && NotsSettled(b)
    case Or(a, b) => NotsSettled(a) && NotsSettled(b)
    case Not(m) => !m.Not? && !m.Bool? && NotsSettled(m)
    case _ => true
  }

  lemma {:induction false} OptimizeSettlesNots(n: Node)
    ensures NotsSettled(Optimize(n))
    decreases n
  {
    match n
    case And(a, b) => OptimizeSettlesNots(a); OptimizeSettlesNots(b);
    case Or(a, b) =>
      if !IsCarryPair(a, b) {
        OptimizeSettlesNots(a);
        OptimizeSettlesNots(b);
      }
    case Not(m) =>
      if m.Not? { OptimizeSettlesNots(m.n); } else if !m.Bool? { OptimizeSettlesNots(m); }
    case _ =>
  }

  /** No `=x|+x` left anywhere. */
  predicate NoPairs(n: Node) {
    match n
    case And(a, b) => NoPairs(a) && NoPairs(b)
    case Or(a, b) => !IsCarryPair(a, b) && NoPairs(a) && NoPairs(b)
    case Not(m) => NoPairs(m)
    case _ => true
  }

  /** The trees that the rewriting leaves alone are exactly the settled ones
      without a pair. */
  lemma {:induction false} OptimizeFixedPoints(n: Node)
    ensures Optimize(n) == n <==> NotsSettled(n) && NoPairs(n)
    decreases n
  {
    OptimizeShrinks(n);
    match n
    case And(a, b) => OptimizeFixedPoints(a); OptimizeFixedPoints(b);
    case Or(a, b) => OptimizeFixedPoints(a); OptimizeFixedPoints(b);
    case Not(m) =>
      if m.Not? { OptimizeShrinks(m.n); } else { OptimizeFixedPoints(m); }
    case _ =>
  }

  lemma {:induction false} OptimizeShrinks(n: Node)
    ensures NodeCount(Optimize(n)) <= NodeCount(n)
    decreases n
  {
    match n
    case And(a, b) => OptimizeShrinks(a); OptimizeShrinks(b);
    case Or(a, b) => if !IsCarryPair(a, b) { OptimizeShrinks(a); OptimizeShrinks(b); }
    case Not(m) =>
      if m.Not? { OptimizeShrinks(m.n); } else if !m.Bool? { OptimizeShrinks(m); }
    case _ =>
  }

  /** What is left under pairs of NOTs at the top. */
  function Strip(n: Node): Node {
    if n.Not? && n.n.Not? then Strip(n.n.n) else n
  }

  /** Nowhere does an OR, which is not a pair as it stands, become one when the
      NOTs over its two sides cancel out. */
  predicate NoLatePairs(n: Node) {
    match n
    case And(a, b) => NoLatePairs(a) && NoLatePairs(b)
    case Or(a, b) => IsCarryPair(a, b) || (!IsCarryPair(Strip(a), Strip(b)) && NoLatePairs(a) && NoLatePairs(b))
    case Not(m) => NoLatePairs(m)
    case _ => true
  }

  /** A side is rewritten to a plain test just when stripping leaves that test. */
  lemma {:induction false} StripIsOptimize(n: Node)
    ensures Optimize(n).Is? || Optimize(n).Carry? || Strip(n).Is? || Strip(n).Carry? ==> Optimize(n) == Strip(n)
  {
    if n.Not? && n.n.Not? { StripIsOptimize(n.n.n); }
  }

  lemma {:induction false} LatePairs(n: Node)
    ensures NoPairs(Optimize(n)) <==> NoLatePairs(n)
    decreases n
  {
    match n
    case And(a, b) => LatePairs(a); LatePairs(b);
    case Or(a, b) =>
      StripIsOptimize(a);
      StripIsOptimize(b);
      LatePairs(a);
      LatePairs(b);
    case Not(m) => if m.Not? { LatePairs(m.n); } else { LatePairs(m); }
    case _ =>
  }

  /** One pass need not be the last: it can bring a new pair together.  A
      second pass changes nothing exactly when no pair of the lock as it was
      written is hidden under NOTs that cancel out. */
  lemma OptimizeTwice(n: Node)
    ensures Optimize(Optimize(n)) == Optimize(n) <==> NoLatePairs(n)
  {
    OptimizeSettlesNots(n);
    OptimizeFixedPoints(Optimize(n));
    LatePairs(n);
  }

  lemma OptimizeNotIdempotent()
    ensures var n := Or(Not(Not(Is(1))), Carry(1)); Optimize(Optimize(n)) != Optimize(n)
  {
    var n := Or(Not(Not(Is(1))), Carry(1));
    assert Optimize(Not(Not(Is(1)))) == Is(1);
    assert Optimize(n) == Or(Is(1), Carry(1));
  }
}
